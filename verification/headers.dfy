/** Header cleaning in `parseCSV` (app/csvtojson/page.tsx): each cell of the first
    row is trimmed and unquoted, an empty name becomes `column`, and the k-th
    repeat of a name gets the suffix `_k`. */
module Headers {
  import opened Text

  /** One outer pair of matching double or single quotes removed, as
      `name.slice(1, -1)` does when `name` starts and ends with the quote. */
  function Unquote(t: string): string {
    if |t| >= 1 && ((t[0] == '"' && t[|t| - 1] == '"') || (t[0] == '\'' && t[|t| - 1] == '\'')) then
      if |t| >= 2 then t[1..|t| - 1] else []
    else t
  }

  /** The base name of a raw header cell. */
  function CleanName(h: string): (name: string)
    ensures name != []
  {
    var u := Unquote(Trim(h));
    if u == [] then "column" else u
  }

  /** The name a base gets when `count` earlier cells had the same base. */
  function HeaderName(base: string, count: nat): string {
    if count == 0 then base else base + "_" + DecimalString(count + 1)
  }

  function Bases(raw: seq<string>): (bases: seq<string>)
    ensures |bases| == |raw|
  {
    seq(|raw|, i requires 0 <= i < |raw| => CleanName(raw[i]))
  }

  /** How many of the first `i` bases equal `b`. */
  function CountBefore(bases: seq<string>, b: string, i: nat): (n: nat)
    requires i <= |bases|
    ensures n <= i
  {
    if i == 0 then 0 else CountBefore(bases, b, i - 1) + (if bases[i - 1] == b then 1 else 0)
  }

  /** The names given to a row of bases: each base, suffixed by the number of bases
      up to and including it that equal it, when that is above one. */
  function Dedupe(bases: seq<string>): (names: seq<string>)
    ensures |names| == |bases|
  {
    seq(|bases|, i requires 0 <= i < |bases| => HeaderName(bases[i], CountBefore(bases, bases[i], i)))
  }

  /** The header row built from the raw cells of the first row. */
  function HeaderNames(raw: seq<string>): (names: seq<string>)
    ensures |names| == |raw|
    ensures forall i :: 0 <= i < |names| ==> names[i] != []
  {
    Dedupe(Bases(raw))
  }

  /** `seen.get(base) ?? 0`. */
  function Seen(seen: map<string, nat>, base: string): nat {
    if base in seen then seen[base] else 0
  }

  /** `rows[0].map(cleanHeader)`, with `cleanHeader` updating the `seen` map. */
  method CleanHeaders(raw: seq<string>) returns (headers: seq<string>)
    ensures headers == HeaderNames(raw)
  {
    var seen: map<string, nat> := map[];
    headers := [];
    ghost var bases := Bases(raw);
    ghost var names := Dedupe(bases);
    for i := 0 to |raw|
      invariant headers == names[..i]
      invariant forall b :: Seen(seen, b) == CountBefore(bases, b, i)
    {
      var base := CleanName(raw[i]);
      var count := Seen(seen, base);
      assert HeaderName(base, count) == names[i] by {
        assert base == bases[i];
      }
      seen := seen[base := count + 1];
      headers := headers + [HeaderName(base, count)];
      PrefixSnoc(names, i);
    }
    PrefixAll(names);
  }

  lemma PrefixSnoc<T>(xs: seq<T>, i: nat)
    requires i < |xs|
    ensures xs[..i + 1] == xs[..i] + [xs[i]]
  {
  }

  lemma PrefixAll<T>(xs: seq<T>)
    ensures xs[..|xs|] == xs
  {
  }

  /** `CountBefore` counts the positions before `i` that hold `b`. */
  lemma {:induction false} CountBeforeCounts(bases: seq<string>, b: string, i: nat)
    requires i <= |bases|
    ensures CountBefore(bases, b, i) == |set k | 0 <= k < i && bases[k] == b|
  {
    if i > 0 {
      CountBeforeCounts(bases, b, i - 1);
      var now := set k | 0 <= k < i && bases[k] == b;
      var before := set k | 0 <= k < i - 1 && bases[k] == b;
      if bases[i - 1] == b {
        assert now == before + {i - 1};
      } else {
        assert now == before;
      }
    }
  }

  /** A base counted before position `i` is counted once more by position `j`. */
  lemma {:induction false} CountGrows(bases: seq<string>, i: nat, j: nat)
    requires i < j <= |bases|
    ensures CountBefore(bases, bases[i], j) >= CountBefore(bases, bases[i], i) + 1
    decreases j
  {
    if j > i + 1 {
      CountGrows(bases, i, j - 1);
    }
  }

  /** Two positions holding the same base get different names. */
  lemma DedupeSameBaseDistinct(bases: seq<string>, i: nat, j: nat)
    requires i < j < |bases| && bases[i] == bases[j]
    ensures Dedupe(bases)[i] != Dedupe(bases)[j]
  {
    var b := bases[i];
    var ci, cj := CountBefore(bases, b, i), CountBefore(bases, b, j);
    CountGrows(bases, i, j);
    if ci > 0 {
      var si, sj := DecimalString(ci + 1), DecimalString(cj + 1);
      var hi, hj := b + "_" + si, b + "_" + sj;
      if hi == hj {
        assert si == hi[|b| + 1..] == hj[|b| + 1..] == sj;
        DecimalStringInjective(ci + 1, cj + 1);
      }
    }
  }

  /** A cell whose text has no surrounding whitespace or quotes is its own name. */
  lemma CleanPlain(h: string)
    requires h != [] && !IsWhitespace(h[0]) && !IsWhitespace(h[|h| - 1])
    requires h[0] != '"' && h[0] != '\''
    ensures CleanName(h) == h
  {
    TrimKeeps(h);
  }

  /** The same base three times is numbered from its second occurrence. */
  lemma DedupeRepeated(a: string)
    ensures Dedupe([a, a, a]) == [a, a + "_2", a + "_3"]
  {
    var bs := [a, a, a];
    assert CountBefore(bs, a, 1) == 1;
    assert CountBefore(bs, a, 2) == 2;
    assert DecimalString(2) == "2" && DecimalString(3) == "3";
    assert a + "_" + "2" == a + "_2" && a + "_" + "3" == a + "_3";
  }

  /** A name that already ends in `_2`, followed by its stem twice. */
  lemma DedupeColliding(a: string)
    ensures Dedupe([a + "_2", a, a]) == [a + "_2", a, a + "_2"]
  {
    var bs := [a + "_2", a, a];
    assert a + "_2" != a by {
      assert |a + "_2"| == |a| + 2;
    }
    assert CountBefore(bs, a + "_2", 0) == 0;
    assert CountBefore(bs, a, 1) == 0;
    assert CountBefore(bs, a, 2) == 1;
    assert DecimalString(2) == "2";
    assert a + "_" + "2" == a + "_2";
  }

  /** A name wrapped in one pair of matching quotes loses them; an empty quoted
      name becomes `column`. */
  lemma CleanQuoted(x: string, q: char)
    requires q == '"' || q == '\''
    ensures CleanName([q] + x + [q]) == if x == [] then "column" else x
  {
    TrimKeeps([q] + x + [q]);
    UnquoteWrapped(x, q);
  }

  /** A header cell is trimmed before anything else happens to it. */
  lemma CleanTrimmed(h: string)
    ensures CleanName(h) == CleanName(Trim(h))
  {
    TrimIdempotent(h);
    CleanSameTrim(h, Trim(h));
  }

  /** The name depends on the cell only through its trimmed text. */
  lemma CleanSameTrim(a: string, b: string)
    requires Trim(a) == Trim(b)
    ensures CleanName(a) == CleanName(b)
  {
  }

  /** A quoted name with whitespace around the quotes, such as ` "a" `, loses the
      whitespace and then the quotes; an empty quoted name becomes `column`. */
  lemma CleanPaddedQuoted(w1: string, x: string, q: char, w2: string)
    requires AllWhitespace(w1) && AllWhitespace(w2)
    requires q == '"' || q == '\''
    ensures CleanName(w1 + [q] + x + [q] + w2) == if x == [] then "column" else x
  {
    var t := [q] + x + [q];
    assert w1 + [q] + x + [q] + w2 == w1 + t + w2;
    TrimPadded(w1, t, w2);
    UnquoteWrapped(x, q);
  }

  /** A name without quotes and with whitespace around it, such as ` a `, is trimmed. */
  lemma CleanPadded(w1: string, x: string, w2: string)
    requires AllWhitespace(w1) && AllWhitespace(w2)
    requires x != [] && !IsWhitespace(x[0]) && !IsWhitespace(x[|x| - 1])
    requires x[0] != '"' && x[0] != '\''
    ensures CleanName(w1 + x + w2) == x
  {
    TrimPadded(w1, x, w2);
  }

  lemma UnquoteWrapped(x: string, q: char)
    requires q == '"' || q == '\''
    ensures Unquote([q] + x + [q]) == x
  {
    var t := [q] + x + [q];
    assert t[1..|t| - 1] == x;
  }

  /** A blank cell is named `column`. */
  lemma CleanBlank(h: string)
    requires IsBlank(h)
    ensures CleanName(h) == "column"
  {
    BlankIffTrimsToEmpty(h);
  }

  /** No base before position `i` equals `b` exactly when none is counted. */
  lemma {:induction false} CountZeroIff(bases: seq<string>, b: string, i: nat)
    requires i <= |bases|
    ensures CountBefore(bases, b, i) == 0 <==> forall k :: 0 <= k < i ==> bases[k] != b
  {
    if i > 0 {
      CountZeroIff(bases, b, i - 1);
    }
  }

  /** A base keeps its own name exactly at its first occurrence. */
  lemma DedupeKeepsFirst(bases: seq<string>, i: nat)
    requires i < |bases|
    ensures Dedupe(bases)[i] == bases[i] <==> forall k :: 0 <= k < i ==> bases[k] != bases[i]
  {
    var b := bases[i];
    var c := CountBefore(bases, b, i);
    CountZeroIff(bases, b, i);
    if c > 0 {
      assert |Dedupe(bases)[i]| > |b|;
    }
  }
}
