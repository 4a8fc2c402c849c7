/** The tokenizer of `parseCSV` (app/csvtojson/page.tsx): one pass over the text with
    a quote flag, cutting it into rows of fields.

    The pass is specified in two layers.  `Lex` is the automaton: it reads the text and
    emits one token per effect on the buffers (a character appended to the field, the
    field ended by a delimiter, the row ended by a line feed); characters with no effect
    (opening and closing quotes, carriage returns) emit nothing.  `Assemble` folds the
    tokens into the `rows`, `row` and `field` buffers, and `Finish` flushes the last row. */
module Tokenizer {
  import opened Text
  import opened Sniffer

  datatype Tok = Char(c: char) | EndField | EndRow

  /** The tokens of `s`, read with quoting `inQuotes` and with the field buffer empty
      exactly when `fieldEmpty`.  Branch order follows the source: the quote first, then
      the delimiter and the line feed outside quotes, then the carriage return. */
  function Lex(s: string, delim: char, inQuotes: bool, fieldEmpty: bool): seq<Tok>
    decreases |s|
  {
    if s == [] then []
    else if s[0] == '"' then
      if inQuotes then
        if |s| > 1 && s[1] == '"' then [Char('"')] + Lex(s[2..], delim, true, false)
        else Lex(s[1..], delim, false, fieldEmpty)
      else if fieldEmpty then Lex(s[1..], delim, true, true)
      else [Char('"')] + Lex(s[1..], delim, false, false)
    else if s[0] == delim && !inQuotes then [EndField] + Lex(s[1..], delim, false, true)
    else if s[0] == '\n' && !inQuotes then [EndRow] + Lex(s[1..], delim, false, true)
    else if s[0] == '\r' then Lex(s[1..], delim, inQuotes, fieldEmpty)
    else [Char(s[0])] + Lex(s[1..], delim, inQuotes, false)
  }

  /** The three buffers of the tokenizer loop. */
  datatype Acc = Acc(rows: seq<seq<string>>, row: seq<string>, field: string)

  function Step(a: Acc, t: Tok): Acc
  {
    match t
    case Char(c) => a.(field := a.field + [c])
    case EndField => a.(row := a.row + [a.field], field := "")
    case EndRow => Acc(a.rows + [a.row + [a.field]], [], "")
  }

  function Assemble(toks: seq<Tok>): Acc
  {
    if toks == [] then Acc([], [], "")
    else Step(Assemble(toks[..|toks| - 1]), toks[|toks| - 1])
  }

  /** The last row is kept when the text does not end with a line feed and the row
      or field buffer holds something. */
  function Finish(a: Acc): seq<seq<string>>
  {
    if |a.field| > 0 || |a.row| > 0 then a.rows + [a.row + [a.field]] else a.rows
  }

  /** The rows the tokenizer produces for `csv` with the sniffed `delim`. */
  function Tokenize(csv: string, delim: char): (rows: seq<seq<string>>)
    ensures AllRowsHaveFields(rows)
  {
    var toks := Lex(csv, delim, false, true);
    AssembleRowsHaveFields(toks);
    Finish(Assemble(toks))
  }

  /** One step of the pass at position `i`. */
  lemma LexAt(s: string, i: nat, delim: char, inQuotes: bool, fieldEmpty: bool)
    requires i < |s|
    ensures Lex(s[i..], delim, inQuotes, fieldEmpty) ==
      if s[i] == '"' then
        if inQuotes then
          if i + 1 < |s| && s[i + 1] == '"' then [Char('"')] + Lex(s[i + 2..], delim, true, false)
          else Lex(s[i + 1..], delim, false, fieldEmpty)
        else if fieldEmpty then Lex(s[i + 1..], delim, true, true)
        else [Char('"')] + Lex(s[i + 1..], delim, false, false)
      else if s[i] == delim && !inQuotes then [EndField] + Lex(s[i + 1..], delim, false, true)
      else if s[i] == '\n' && !inQuotes then [EndRow] + Lex(s[i + 1..], delim, false, true)
      else if s[i] == '\r' then Lex(s[i + 1..], delim, inQuotes, fieldEmpty)
      else [Char(s[i])] + Lex(s[i + 1..], delim, inQuotes, false)
  {
    assert s[i..][0] == s[i];
    assert s[i..][1..] == s[i + 1..];
    if i + 1 < |s| {
      assert s[i..][1] == s[i + 1];
      assert s[i..][2..] == s[i + 2..];
    }
  }

  lemma AssembleSnoc(toks: seq<Tok>, t: Tok)
    ensures Assemble(toks + [t]) == Step(Assemble(toks), t)
  {
    assert (toks + [t])[..|toks|] == toks;
  }

  /** Emitting token `t`: the buffers take one step and the rest of the text follows. */
  lemma Emit(all: seq<Tok>, seen: seq<Tok>, t: Tok, rest: seq<Tok>)
    requires all == seen + ([t] + rest)
    ensures all == (seen + [t]) + rest
    ensures Assemble(seen + [t]) == Step(Assemble(seen), t)
  {
    AssembleSnoc(seen, t);
  }

  /** The tokenizer loop of `parseCSV` (app/csvtojson/page.tsx). */
  method TokenizeRows(csv: string, delimiter: char) returns (rows: seq<seq<string>>)
    ensures rows == Tokenize(csv, delimiter)
  {
    rows := [];
    var row: seq<string> := [];
    var field := "";
    var inQuotes := false;
    ghost var seen: seq<Tok> := [];
    var i := 0;
    while i < |csv|
      invariant 0 <= i <= |csv|
      invariant Lex(csv, delimiter, false, true) == seen + Lex(csv[i..], delimiter, inQuotes, |field| == 0)
      invariant Assemble(seen) == Acc(rows, row, field)
    {
      var c := csv[i];
      ghost var all, fe := Lex(csv, delimiter, false, true), |field| == 0;
      if c == '"' {
        if inQuotes {
          if i + 1 < |csv| && csv[i + 1] == '"' {
            assert Lex(csv[i..], delimiter, true, fe) == [Char('"')] + Lex(csv[i + 2..], delimiter, true, false)
              by { LexAt(csv, i, delimiter, true, fe); }
            Emit(all, seen, Char('"'), Lex(csv[i + 2..], delimiter, true, false));
            field := field + "\"";
            seen := seen + [Char('"')];
            i := i + 1;
          } else {
            assert Lex(csv[i..], delimiter, true, fe) == Lex(csv[i + 1..], delimiter, false, fe)
              by { LexAt(csv, i, delimiter, true, fe); }
            inQuotes := false;
          }
        } else {
          if field == "" {
            assert Lex(csv[i..], delimiter, false, true) == Lex(csv[i + 1..], delimiter, true, true)
              by { LexAt(csv, i, delimiter, false, true); }
            inQuotes := true;
          } else {
            assert Lex(csv[i..], delimiter, false, false) == [Char('"')] + Lex(csv[i + 1..], delimiter, false, false)
              by { LexAt(csv, i, delimiter, false, false); }
            Emit(all, seen, Char('"'), Lex(csv[i + 1..], delimiter, false, false));
            field := field + "\"";
            seen := seen + [Char('"')];
          }
        }
      } else if c == delimiter && !inQuotes {
        assert Lex(csv[i..], delimiter, false, fe) == [EndField] + Lex(csv[i + 1..], delimiter, false, true)
          by { LexAt(csv, i, delimiter, false, fe); }
        Emit(all, seen, EndField, Lex(csv[i + 1..], delimiter, false, true));
        row := row + [field];
        field := "";
        seen := seen + [EndField];
      } else if c == '\n' && !inQuotes {
        assert Lex(csv[i..], delimiter, false, fe) == [EndRow] + Lex(csv[i + 1..], delimiter, false, true)
          by { LexAt(csv, i, delimiter, false, fe); }
        Emit(all, seen, EndRow, Lex(csv[i + 1..], delimiter, false, true));
        row := row + [field];
        rows := rows + [row];
        row := [];
        field := "";
        seen := seen + [EndRow];
      } else if c == '\r' {
        assert Lex(csv[i..], delimiter, inQuotes, fe) == Lex(csv[i + 1..], delimiter, inQuotes, fe)
          by { LexAt(csv, i, delimiter, inQuotes, fe); }
      } else {
        assert Lex(csv[i..], delimiter, inQuotes, fe) == [Char(c)] + Lex(csv[i + 1..], delimiter, inQuotes, false)
          by { LexAt(csv, i, delimiter, inQuotes, fe); }
        Emit(all, seen, Char(c), Lex(csv[i + 1..], delimiter, inQuotes, false));
        field := field + [c];
        seen := seen + [Char(c)];
      }
      i := i + 1;
    }
    assert csv[i..] == [];
    assert seen + [] == seen;
    if |field| > 0 || |row| > 0 {
      row := row + [field];
      rows := rows + [row];
    }
  }

  /** Every row holds at least one field. */
  predicate AllRowsHaveFields(rows: seq<seq<string>>) {
    forall k :: 0 <= k < |rows| ==> |rows[k]| >= 1
  }

  lemma {:induction false} AssembleRowsHaveFields(toks: seq<Tok>)
    ensures AllRowsHaveFields(Assemble(toks).rows)
  {
    if toks != [] {
      AssembleRowsHaveFields(toks[..|toks| - 1]);
    }
  }

  /** No text yields no rows at all: the rows are empty exactly when the pass emits
      nothing, as for the empty text or a lone `""`. */
  lemma TokenizeEmptyIff(csv: string, delim: char)
    ensures Tokenize(csv, delim) == [] <==> Lex(csv, delim, false, true) == []
  {
  }

  /** The structure of a token sequence: delimiters and row ends, characters dropped. */
  function Shape(toks: seq<Tok>): (m: seq<Mark>)
    ensures |m| <= |toks|
  {
    if toks == [] then []
    else
      (match toks[0] case Char(_) => [] case EndField => [Sep] case EndRow => [EndLine])
      + Shape(toks[1..])
  }

  lemma {:induction false} ShapeSnoc(toks: seq<Tok>, t: Tok)
    ensures Shape(toks + [t]) == Shape(toks) + Shape([t])
  {
    if toks != [] {
      assert (toks + [t])[1..] == toks[1..] + [t];
      ShapeSnoc(toks[1..], t);
    }
  }

  /** The field count of each row. */
  function Widths(rows: seq<seq<string>>): (w: seq<nat>)
    ensures |w| == |rows|
  {
    seq(|rows|, k requires 0 <= k < |rows| => |rows[k]|)
  }

  /** A row has one more field than its row holds field ends: the widths of the
      assembled rows are the line counts of the token structure. */
  lemma {:induction false} AssembleWidths(toks: seq<Tok>)
    ensures Widths(Assemble(toks).rows) == LineCounts(Shape(toks))
    ensures |Assemble(toks).row| + 1 == OpenCount(Shape(toks))
  {
    if toks != [] {
      var prefix, t := toks[..|toks| - 1], toks[|toks| - 1];
      assert toks == prefix + [t];
      AssembleWidths(prefix);
      ShapeSnoc(prefix, t);
      var m := Shape(prefix);
      match t
      case Char(_) =>
        assert Shape([t]) == [];
        assert m + [] == m;
      case EndField =>
        assert Shape([t]) == [Sep];
        CountsSnoc(m, Sep);
      case EndRow =>
        assert Shape([t]) == [EndLine];
        CountsSnoc(m, EndLine);
    }
  }

  /** Each row's field count is one more than the number of delimiters the pass
      treats as separators in it; a kept last row counts the open line. */
  lemma RowWidths(csv: string, delim: char)
    ensures var toks := Lex(csv, delim, false, true);
            var a, m := Assemble(toks), Shape(toks);
            Widths(Tokenize(csv, delim))
            == LineCounts(m) + (if |a.field| > 0 || |a.row| > 0 then [OpenCount(m)] else [])
  {
    var toks := Lex(csv, delim, false, true);
    var a := Assemble(toks);
    AssembleWidths(toks);
    assert a.rows + [] == a.rows;
  }

  /** Without quotes the tokenizer and the sniffer agree on the structure of the text. */
  lemma {:induction false} QuoteFreeShape(s: string, delim: char, fieldEmpty: bool)
    requires '"' !in s
    ensures Shape(Lex(s, delim, false, fieldEmpty)) == Marks(s, delim, false)
    decreases |s|
  {
    if s != [] {
      assert '"' !in s[1..] by { assert forall j :: 0 <= j < |s[1..]| ==> s[1..][j] == s[j + 1]; }
      var t := Lex(s, delim, false, fieldEmpty);
      if s[0] == delim {
        QuoteFreeShape(s[1..], delim, true);
        assert t[1..] == Lex(s[1..], delim, false, true);
      } else if s[0] == '\n' {
        QuoteFreeShape(s[1..], delim, true);
        assert t[1..] == Lex(s[1..], delim, false, true);
      } else if s[0] == '\r' {
        QuoteFreeShape(s[1..], delim, fieldEmpty);
      } else {
        QuoteFreeShape(s[1..], delim, false);
        assert t[1..] == Lex(s[1..], delim, false, false);
      }
    }
  }

  /** On text without quotes, the column count the sniffer records for each complete
      line is the field count of the corresponding tokenized row. */
  lemma SnifferAgreesWithTokenizer(s: string, delim: char)
    requires '"' !in s
    ensures Widths(Assemble(Lex(s, delim, false, true)).rows) == LineCounts(Marks(s, delim, false))
  {
    AssembleWidths(Lex(s, delim, false, true));
    QuoteFreeShape(s, delim, true);
  }

  /** Character `x` occurs in no field of the buffers. */
  predicate Avoids(a: Acc, x: char) {
    x !in a.field
    && (forall j :: 0 <= j < |a.row| ==> x !in a.row[j])
    && (forall k, j :: 0 <= k < |a.rows| && 0 <= j < |a.rows[k]| ==> x !in a.rows[k][j])
  }

  lemma {:induction false} AssembleAvoids(toks: seq<Tok>, x: char)
    requires Char(x) !in toks
    ensures Avoids(Assemble(toks), x)
  {
    if toks != [] {
      var prefix := toks[..|toks| - 1];
      assert Char(x) !in prefix by {
        assert forall j :: 0 <= j < |prefix| ==> prefix[j] == toks[j];
      }
      AssembleAvoids(prefix, x);
    }
  }

  lemma {:induction false} LexNoCarriageReturn(s: string, delim: char, inQuotes: bool, fieldEmpty: bool)
    ensures Char('\r') !in Lex(s, delim, inQuotes, fieldEmpty)
    decreases |s|
  {
    if s != [] {
      if |s| > 1 {
        LexNoCarriageReturn(s[2..], delim, true, false);
      }
      LexNoCarriageReturn(s[1..], delim, false, fieldEmpty);
      LexNoCarriageReturn(s[1..], delim, true, true);
      LexNoCarriageReturn(s[1..], delim, false, false);
      LexNoCarriageReturn(s[1..], delim, false, true);
      LexNoCarriageReturn(s[1..], delim, inQuotes, fieldEmpty);
      LexNoCarriageReturn(s[1..], delim, inQuotes, false);
    }
  }

  /** Carriage returns are dropped everywhere, inside quotes too. */
  lemma NoCarriageReturnInFields(csv: string, delim: char)
    ensures var rows := Tokenize(csv, delim);
            forall k, j :: 0 <= k < |rows| && 0 <= j < |rows[k]| ==> '\r' !in rows[k][j]
  {
    var toks := Lex(csv, delim, false, true);
    LexNoCarriageReturn(csv, delim, false, true);
    AssembleAvoids(toks, '\r');
  }

  /** The text of rows written back: fields joined by the delimiter, each row closed
      by a line feed. */
  function RowsText(rows: seq<seq<string>>, delim: char): string
    requires AllRowsHaveFields(rows)
  {
    if rows == [] then ""
    else RowsText(rows[..|rows| - 1], delim) + Join(rows[|rows| - 1], delim) + "\n"
  }

  /** The characters the tokens stand for. */
  function Unlex(toks: seq<Tok>, delim: char): (s: string)
    ensures |s| == |toks|
  {
    if toks == [] then ""
    else
      [match toks[0] case Char(c) => c case EndField => delim case EndRow => '\n']
      + Unlex(toks[1..], delim)
  }

  lemma {:induction false} UnlexSnoc(toks: seq<Tok>, t: Tok, delim: char)
    ensures Unlex(toks + [t], delim) == Unlex(toks, delim) + Unlex([t], delim)
  {
    if toks != [] {
      assert (toks + [t])[1..] == toks[1..] + [t];
      UnlexSnoc(toks[1..], t, delim);
    }
  }

  /** The token a character stands for in text without quotes and carriage returns. */
  function PlainTok(c: char, delim: char): Tok
  {
    if c == delim then EndField else if c == '\n' then EndRow else Char(c)
  }

  /** Without quotes and carriage returns every character is one token. */
  lemma {:induction false} PlainLex(s: string, delim: char, fieldEmpty: bool)
    requires '"' !in s && '\r' !in s
    ensures |Lex(s, delim, false, fieldEmpty)| == |s|
    ensures forall i :: 0 <= i < |s| ==> Lex(s, delim, false, fieldEmpty)[i] == PlainTok(s[i], delim)
    ensures Unlex(Lex(s, delim, false, fieldEmpty), delim) == s
    decreases |s|
  {
    if s != [] {
      var rest := s[1..];
      assert '"' !in rest && '\r' !in rest by {
        assert forall j :: 0 <= j < |rest| ==> rest[j] == s[j + 1];
      }
      var fe := s[0] == delim || (s[0] == '\n');
      PlainLex(rest, delim, fe);
      var t := Lex(s, delim, false, fieldEmpty);
      assert t == [PlainTok(s[0], delim)] + Lex(rest, delim, false, fe);
      assert s == [s[0]] + rest;
    }
  }

  /** The text the buffers stand for: the finished rows, then the open row. */
  function BufferText(a: Acc, delim: char): string
    requires AllRowsHaveFields(a.rows)
  {
    RowsText(a.rows, delim) + Join(a.row + [a.field], delim)
  }

  lemma {:induction false} JoinSnoc(parts: seq<string>, p: string, sep: char)
    requires |parts| >= 1
    ensures Join(parts + [p], sep) == Join(parts, sep) + [sep] + p
    decreases |parts|
  {
    if |parts| > 1 {
      assert (parts + [p])[1..] == parts[1..] + [p];
      JoinSnoc(parts[1..], p, sep);
    }
  }

  /** Appending a character to the last part appends it to the joined text. */
  lemma JoinExtendLast(parts: seq<string>, p: string, c: char, sep: char)
    ensures Join(parts + [p + [c]], sep) == Join(parts + [p], sep) + [c]
  {
    if parts == [] {
      assert [p + [c]] == parts + [p + [c]];
    } else {
      JoinSnoc(parts, p + [c], sep);
      JoinSnoc(parts, p, sep);
    }
  }

  /** Assembling never loses or reorders a character: the buffers spell the tokens. */
  lemma {:induction false} AssembleSpells(toks: seq<Tok>, delim: char)
    ensures AllRowsHaveFields(Assemble(toks).rows)
    ensures BufferText(Assemble(toks), delim) == Unlex(toks, delim)
  {
    AssembleRowsHaveFields(toks);
    if toks != [] {
      var prefix, t := toks[..|toks| - 1], toks[|toks| - 1];
      assert toks == prefix + [t];
      AssembleSpells(prefix, delim);
      UnlexSnoc(prefix, t, delim);
      var a := Assemble(prefix);
      match t
      case Char(c) =>
        JoinExtendLast(a.row, a.field, c, delim);
      case EndField =>
        JoinSnoc(a.row + [a.field], "", delim);
        assert a.row + [a.field] + [""] == (a.row + [a.field]) + [""];
      case EndRow =>
        var rows := a.rows + [a.row + [a.field]];
        assert rows[..|rows| - 1] == a.rows;
        assert Join([] + [""], delim) == "";
    }
  }

  /** The row and field buffers are both empty exactly at the start and after a row end. */
  lemma AssembleClosed(toks: seq<Tok>)
    ensures var a := Assemble(toks);
            (|a.field| == 0 && |a.row| == 0) <==> (toks == [] || toks[|toks| - 1] == EndRow)
  {
  }

  /** Writing back the finished rows spells the buffers, plus a line feed when a last
      row is kept. */
  lemma FinishText(a: Acc, delim: char)
    requires AllRowsHaveFields(a.rows)
    ensures AllRowsHaveFields(Finish(a))
    ensures RowsText(Finish(a), delim)
            == if |a.field| == 0 && |a.row| == 0 then BufferText(a, delim) else BufferText(a, delim) + "\n"
  {
    if |a.field| == 0 && |a.row| == 0 {
      assert a.row + [a.field] == [""];
    } else {
      var rows := a.rows + [a.row + [a.field]];
      assert rows[..|rows| - 1] == a.rows;
    }
  }

  /** Text without quotes and carriage returns is rebuilt exactly by writing its rows
      back, up to the line feed that closes the last row. */
  lemma PlainRoundTrip(s: string, delim: char)
    requires '"' !in s && '\r' !in s && delim != '\n'
    ensures AllRowsHaveFields(Tokenize(s, delim))
    ensures RowsText(Tokenize(s, delim), delim) == if s == [] || s[|s| - 1] == '\n' then s else s + "\n"
  {
    var toks := Lex(s, delim, false, true);
    PlainLex(s, delim, true);
    AssembleSpells(toks, delim);
    var a := Assemble(toks);
    FinishText(a, delim);
    AssembleClosed(toks);
    assert (toks == [] || toks[|toks| - 1] == EndRow) <==> (s == [] || s[|s| - 1] == '\n');
  }

  /** The tokens of text appended to a field character by character. */
  function Chars(x: string): (t: seq<Tok>)
    ensures |t| == |x|
  {
    if x == [] then [] else [Char(x[0])] + Chars(x[1..])
  }

  /** Inside quotes, delimiters and line feeds are field text. */
  lemma {:induction false} InsideQuotes(x: string, rest: string, delim: char, fieldEmpty: bool)
    requires '"' !in x && '\r' !in x
    ensures Lex(x + rest, delim, true, fieldEmpty) == Chars(x) + Lex(rest, delim, true, fieldEmpty && x == [])
    decreases |x|
  {
    if x == [] {
      assert x + rest == rest;
    } else {
      var c, tail := x[0], x[1..];
      assert '"' !in tail && '\r' !in tail by {
        assert forall j :: 0 <= j < |tail| ==> tail[j] == x[j + 1];
      }
      assert Lex(x + rest, delim, true, fieldEmpty) == [Char(c)] + Lex(tail + rest, delim, true, false) by {
        assert (x + rest)[0] == c;
        assert (x + rest)[1..] == tail + rest;
      }
      InsideQuotes(tail, rest, delim, false);
    }
  }

  /** Text with no quote, carriage return, delimiter or line feed: every character of
      it is appended to the field. */
  predicate PlainField(x: string, delim: char) {
    '"' !in x && '\r' !in x && delim !in x && '\n' !in x
  }

  /** Outside quotes, plain field text is appended character by character. */
  lemma {:induction false} OutsideQuotes(x: string, rest: string, delim: char, fieldEmpty: bool)
    requires PlainField(x, delim)
    ensures Lex(x + rest, delim, false, fieldEmpty) == Chars(x) + Lex(rest, delim, false, fieldEmpty && x == [])
    decreases |x|
  {
    if x == [] {
      assert x + rest == rest;
    } else {
      var c, tail := x[0], x[1..];
      assert PlainField(tail, delim) by {
        assert forall j :: 0 <= j < |tail| ==> tail[j] == x[j + 1];
      }
      assert c != '"' && c != '\r' && c != delim && c != '\n' by {
        assert c in x;
      }
      assert Lex(x + rest, delim, false, fieldEmpty) == [Char(c)] + Lex(tail + rest, delim, false, false) by {
        assert (x + rest)[0] == c;
        assert (x + rest)[1..] == tail + rest;
      }
      OutsideQuotes(tail, rest, delim, false);
    }
  }

  /** A quote that does not start its field opens nothing: it is appended to the field
      as a literal character and quoting stays off. */
  lemma MidFieldQuote(x: string, rest: string, delim: char)
    requires x != [] && PlainField(x, delim)
    ensures Lex(x + "\"" + rest, delim, false, true) == Chars(x) + [Char('"')] + Lex(rest, delim, false, false)
  {
    var q := "\"" + rest;
    assert x + "\"" + rest == x + q;
    OutsideQuotes(x, q, delim, true);
    assert q[0] == '"' && q[1..] == rest;
  }

  /** A field with a stray quote inside it, such as `x"y`, is one field holding the
      quote as text. */
  lemma StrayQuoteField(x: string, y: string, delim: char)
    requires x != [] && PlainField(x, delim) && PlainField(y, delim)
    ensures Tokenize(x + "\"" + y, delim) == [[x + "\"" + y]]
  {
    var q := "\"";
    MidFieldQuote(x, y, delim);
    OutsideQuotes(y, [], delim, false);
    assert y + [] == y;
    assert Chars(x) + [Char('"')] + Chars(y) == Chars(x + q + y) by {
      assert Chars(q) == [Char('"')];
      CharsAppend(x, q);
      CharsAppend(x + q, y);
    }
    SingleField(x + q + y, delim, x + q + y);
  }

  /** The field `x"y` keeps its quote. */
  lemma StrayQuoteExample()
    ensures Tokenize("x\"y", ',') == [["x\"y"]]
  {
    StrayQuoteField("x", "y", ',');
    assert "x" + "\"" + "y" == "x\"y";
  }

  /** A field opened by a quote at its start and closed by the next lone quote holds
      exactly the text between them, delimiters and line feeds included. */
  lemma QuotedField(x: string, rest: string, delim: char)
    requires '"' !in x && '\r' !in x && (rest == [] || rest[0] != '"')
    ensures Lex("\"" + x + "\"" + rest, delim, false, true) == Chars(x) + Lex(rest, delim, false, x == [])
  {
    var s := "\"" + x + "\"" + rest;
    assert s[1..] == x + ("\"" + rest);
    InsideQuotes(x, "\"" + rest, delim, true);
    var q := "\"" + rest;
    assert q[1..] == rest;
  }

  lemma {:induction false} CharsAppend(x: string, y: string)
    ensures Chars(x + y) == Chars(x) + Chars(y)
    decreases |x|
  {
    if x == [] {
      assert x + y == y;
    } else {
      var xy := x + y;
      assert xy[0] == x[0] && xy[1..] == x[1..] + y;
      assert Chars(xy) == [Char(x[0])] + Chars(x[1..] + y);
      CharsAppend(x[1..], y);
      assert Chars(x) == [Char(x[0])] + Chars(x[1..]);
    }
  }

  /** Characters appended to the field buffer, one token each. */
  lemma {:induction false} AssembleChars(toks: seq<Tok>, x: string)
    ensures var a := Assemble(toks); Assemble(toks + Chars(x)) == Acc(a.rows, a.row, a.field + x)
    decreases |x|
  {
    var a := Assemble(toks);
    if x == [] {
      assert toks + Chars(x) == toks;
      assert a.field + x == a.field;
    } else {
      var p, c := x[..|x| - 1], x[|x| - 1];
      assert x == p + [c];
      assert Chars(x) == Chars(p) + [Char(c)] by {
        CharsAppend(p, [c]);
        assert Chars([c]) == [Char(c)];
      }
      AssembleChars(toks, p);
      assert toks + Chars(x) == (toks + Chars(p)) + [Char(c)];
      AssembleSnoc(toks + Chars(p), Char(c));
      assert a.field + p + [c] == a.field + x;
    }
  }

  /** Text whose tokens are the characters of one non-empty field is one row of it. */
  lemma SingleField(s: string, delim: char, f: string)
    requires Lex(s, delim, false, true) == Chars(f) && f != []
    ensures Tokenize(s, delim) == [[f]]
  {
    AssembleChars([], f);
    assert [] + Chars(f) == Chars(f);
    var a := Assemble(Chars(f));
    assert a == Acc([], [], f);
    assert a.row + [a.field] == [f];
    assert a.rows + [[f]] == [[f]];
  }

  /** A quoted field holding two doubled quotes, as in `"He said ""hi"""`: each doubled
      quote stands for one quote character and the field is the only one of its row. */
  lemma EscapedQuotes(x: string, y: string, delim: char)
    requires '"' !in x && '\r' !in x && '"' !in y && '\r' !in y
    ensures Tokenize("\"" + x + "\"\"" + y + "\"\"\"", delim) == [[x + "\"" + y + "\""]]
  {
    var q := "\"";
    var s := q + x + "\"\"" + y + "\"\"\"";
    var f := x + q + y + q;
    assert Lex(s, delim, false, true) == Chars(x) + [Char('"')] + Chars(y) + [Char('"')] by {
      var r1 := "\"\"" + y + "\"\"\"";
      assert s[0] == '"' && s[1..] == x + r1;
      InsideQuotes(x, r1, delim, true);
      assert r1[0] == '"' && r1[1] == '"' && r1[2..] == y + "\"\"\"";
      InsideQuotes(y, "\"\"\"", delim, false);
      var r2 := "\"\"\"";
      assert r2[0] == '"' && r2[1] == '"' && r2[2..] == q;
      assert Lex(q, delim, true, false) == [];
      assert Lex(r2, delim, true, false) == [Char('"')];
    }
    assert Chars(x) + [Char('"')] + Chars(y) + [Char('"')] == Chars(f) by {
      assert Chars(q) == [Char('"')];
      CharsAppend(x, q);
      CharsAppend(x + q, y);
      CharsAppend(x + q + y, q);
    }
    SingleField(s, delim, f);
  }

  /** The field `"He said ""hi"""` reads as `He said "hi"`. */
  lemma EscapedQuoteExample()
    ensures Tokenize("\"He said \"\"hi\"\"\"", ',') == [["He said \"hi\""]]
  {
    EscapedQuotes("He said ", "hi", ',');
    assert "\"He said \"\"hi\"\"\"" == "\"" + "He said " + "\"\"" + "hi" + "\"\"\"";
    assert "He said \"hi\"" == "He said " + "\"" + "hi" + "\"";
  }

  /** An empty quoted field alone yields no row. */
  lemma EmptyQuotedExample()
    ensures Tokenize("\"\"", ',') == []
  {
    QuotedField("", "", ',');
    assert "\"" + "" + "\"" + "" == "\"\"";
  }

  lemma ThreeDelimitersLex()
    ensures Lex(",,,", ',', false, true) == [EndField, EndField, EndField]
  {
    var c := ",,,";
    assert c[1..] == ",," && c[1..][1..] == "," && c[1..][1..][1..] == "";
    assert Lex(",", ',', false, true) == [EndField];
    assert Lex(",,", ',', false, true) == [EndField, EndField];
  }

  lemma ThreeFieldEndsAssemble()
    ensures Assemble([EndField, EndField, EndField]) == Acc([], ["", "", ""], "")
  {
    AssembleSnoc([], EndField);
    assert [] + [EndField] == [EndField];
    AssembleSnoc([EndField], EndField);
    assert [EndField] + [EndField] == [EndField, EndField];
    AssembleSnoc([EndField, EndField], EndField);
    assert [EndField, EndField] + [EndField] == [EndField, EndField, EndField];
  }

  /** Three delimiters yield one row of four empty fields. */
  lemma EmptyFieldsExample()
    ensures Tokenize(",,,", ',') == [["", "", "", ""]]
  {
    ThreeDelimitersLex();
    ThreeFieldEndsAssemble();
    assert ["", "", ""] + [""] == ["", "", "", ""];
    assert [] + [["", "", "", ""]] == [["", "", "", ""]];
  }
}
