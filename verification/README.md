# CSV-to-JSON conversion and gallery selection logic, in Dafny

This project models three pieces of a Next.js review-gallery application and proves
properties of them.

- **`parseCSV`** (app/csvtojson/page.tsx) turns pasted CSV text into a list of
  string-valued records. It works in five stages:
  - it sniffs the delimiter among `,` `;` tab `|` from per-line column statistics;
  - it tokenizes with a lenient quote-aware pass;
  - it trims blank rows from both ends;
  - it cleans and numbers the header names;
  - it builds one record per data row, running every cell through the `infer` normaliser
    (booleans, canonical numbers, text kept) and dropping records whose values are all empty.
- **`expandedReviews`** (components/gallery/image-grid.tsx) turns a review whose
  `Images Published Image URL` field lists several `;`-separated URLs into one gallery
  entry per URL. Each entry has a derived `Review ID`.
- **`toggleRating`, `clearAll`, `selectAll`** (components/gallery/ratings-filter.tsx)
  compute the new list of selected star ratings.

The imperative parts of `parseCSV` are methods with loops. Each is proved equal to a
specification function, and lemmas state what those functions promise:
- the sniffer's scan and its selection loop;
- the tokenizer loop;
- the `shift`/`pop` trimming loops;
- header cleaning with its `seen` map;
- the record loops.

`infer`, the gallery expansion and the rating selection are pure functions.

Modules, one per stage:
- `Text`: JavaScript `trim`, `split` and decimal digit strings;
- `Results`: `Option`/`Result`;
- `Sniffer`;
- `Tokenizer`;
- `RowTrimming`;
- `Headers`;
- `Inference`;
- `RecordBuilding`;
- `Converter`: the whole `parseCSV`;
- `ImageGrid`;
- `RatingsFilter`.

Where the code and its design description disagree, the model follows the code:
- Whitespace-only input returns an empty list; it does not fail (`Converter.BlankInputGivesNoRecords`).
- Header names are not always unique: `a_2,a,a` gives `a_2,a,a_2` (`Headers.DedupeColliding`).
- Cells beyond the header count are dropped, not kept (`RecordBuilding.RecordIgnoresExtraCells`).

## Model

| member | source | states |
|---|---|---|
| Sniffer.CountColumns | app/csvtojson/page.tsx:25-50 | The scan yields the column counts of the first 200 newline-terminated lines. When there are fewer lines, it adds the unterminated last line's count if that is above 1 and differs from the previous count. It yields at most 200 counts. |
| Sniffer.SniffCounts | app/csvtojson/page.tsx:25-50 | The counts the scan gives a delimiter: at most 200 of them. |
| Sniffer.LineCountsAppendLine | app/csvtojson/page.tsx:29-43 | A line's column count is one more than the number of delimiters outside quotes in it. |
| Sniffer.LineCountsPrefix | app/csvtojson/page.tsx:39-42 | Stopping the scan early keeps the counts of the lines seen so far, in order. |
| Sniffer.Informative | app/csvtojson/page.tsx:53 | Exactly the counts of 2 or more are kept, each as many times as it occurs. |
| Sniffer.InformativeAppend | app/csvtojson/page.tsx:53 | The filter distributes over concatenation, so the kept counts stay in line order. |
| Sniffer.InformativeLength | app/csvtojson/page.tsx:53 | The number of kept counts is the number of lines with 2 or more columns. |
| Sniffer.SortAscending | app/csvtojson/page.tsx:56 | The sort is ascending and a permutation of the counts. |
| Sniffer.Median | app/csvtojson/page.tsx:57 | The median is one of the counts. |
| Sniffer.MedianRank | app/csvtojson/page.tsx:56-57 | The median is the element at position `floor(n/2)` of the ascending order: at most `floor(n/2)` counts lie below it and more than `floor(n/2)` lie at or below it. |
| Sniffer.VarianceZeroIffUniform | app/csvtojson/page.tsx:58-59 | The population variance is never negative. It is zero exactly when all counts are equal. |
| Sniffer.VarianceOfMean | app/csvtojson/page.tsx:58-59 | The variance is the sum of the squared distances from the mean `sum / n`, divided by `n`. |
| Sniffer.LineStats | app/csvtojson/page.tsx:52-60 | There are no statistics (variance `Infinity`) exactly when every count is below 2. Otherwise the median is at least 2 and is one of the counts, the variance is non-negative, and the sample size is at least 1 and at most the number of counts. |
| Sniffer.LineStatsValues | app/csvtojson/page.tsx:52-60 | With statistics, the sample is the number of lines with 2 or more columns, the median is the middle order statistic of those counts, and the variance is their population variance about their mean. |
| Sniffer.UniformPairScore | app/csvtojson/page.tsx:54-67 | Two equal counts `k` score `-Infinity` when `k < 2`, and `1000k + 2` otherwise. |
| Sniffer.FirstBest | app/csvtojson/page.tsx:63-69 | The chosen candidate strictly beats every earlier one, and no later candidate beats it. Ties go to the earliest, and comma wins when every score is `-Infinity`. |
| Sniffer.SelectionStep | app/csvtojson/page.tsx:64-68 | One pass of the selection loop moves the best candidate to the first best among the candidates seen so far. |
| Sniffer.SniffDelimiter | app/csvtojson/page.tsx:63-70 | The selection loop returns the sniffed delimiter. |
| Sniffer.Sniff | app/csvtojson/page.tsx:23-70 | The sniffed delimiter is one of `,` `;` tab `\|`. |
| Sniffer.SniffSemicolonExample | app/csvtojson/page.tsx:23-70 | `a;b;c\n1;2;3\n4;5;6` selects `;`. |
| Tokenizer.Tokenize | app/csvtojson/page.tsx:94-111 | Every emitted row has at least one field. |
| Tokenizer.TokenizeRows | app/csvtojson/page.tsx:73-112 | The tokenizer loop returns the rows of the token fold. |
| Tokenizer.RowWidths | app/csvtojson/page.tsx:93-111 | A row's field count is one more than its separating delimiters. A final line without a line feed appears exactly when its buffers are not empty. |
| Tokenizer.AssembleClosed | app/csvtojson/page.tsx:96-101 | The row and field buffers are both empty exactly when no token has been read or the last token ended a row. |
| Tokenizer.TokenizeEmptyIff | app/csvtojson/page.tsx:108-112 | There are no rows exactly when the pass emits nothing. |
| Tokenizer.SnifferAgreesWithTokenizer | app/csvtojson/page.tsx:93-101 | On quote-free text, the sniffer's count for each complete line is that row's field count. |
| Tokenizer.NoCarriageReturnInFields | app/csvtojson/page.tsx:102-103 | No field contains a carriage return, inside quotes or out. |
| Tokenizer.PlainRoundTrip | app/csvtojson/page.tsx:78-112 | Text without quotes or carriage returns is rebuilt exactly by joining its rows, up to a final line feed. |
| Tokenizer.QuotedField | app/csvtojson/page.tsx:81-93 | A quote at the start of a field opens quoting. Delimiters and line feeds inside it are field text, and the next lone quote closes it. |
| Tokenizer.EscapedQuotes | app/csvtojson/page.tsx:82-87 | Inside quotes, `""` stands for one quote character. |
| Tokenizer.EscapedQuoteExample | app/csvtojson/page.tsx:82-87 | `"He said ""hi"""` reads as the one field `He said "hi"`. |
| Tokenizer.OutsideQuotes | app/csvtojson/page.tsx:93-106 | Outside quotes, characters other than quotes, delimiters, line feeds and carriage returns are appended to the field one by one. |
| Tokenizer.MidFieldQuote | app/csvtojson/page.tsx:88-91 | A quote after the start of a field does not open quoting: it is appended to the field literally. |
| Tokenizer.StrayQuoteField | app/csvtojson/page.tsx:88-112 | A line `x"y` with no delimiters or line feeds is one row with the single field `x"y`. |
| Tokenizer.StrayQuoteExample | app/csvtojson/page.tsx:88-112 | `x"y` reads as the one field `x"y`. |
| Tokenizer.EmptyQuotedExample | app/csvtojson/page.tsx:88-112 | A lone `""` yields no row at all. |
| Tokenizer.EmptyFieldsExample | app/csvtojson/page.tsx:93-112 | `,,,` with comma yields one row of four empty fields. |
| RowTrimming.TrimBlankRows | app/csvtojson/page.tsx:115-116 | Trimming never adds rows. |
| RowTrimming.TrimRows | app/csvtojson/page.tsx:115-116 | The `shift` and `pop` loops return the trimmed rows. |
| RowTrimming.TrimBlankRowsSpec | app/csvtojson/page.tsx:115-116 | What is kept is a contiguous run of the rows. Everything before and after it is blank, and its first and last rows are not blank. |
| RowTrimming.TrimBlankRowsEmptyIff | app/csvtojson/page.tsx:115-118 | Nothing is left exactly when every row is blank. |
| RowTrimming.TrimBlankRowsIdempotent | app/csvtojson/page.tsx:115-116 | Trimming twice is trimming once. |
| Headers.HeaderNames | app/csvtojson/page.tsx:127-134 | There is one name per header cell, and every name is non-empty. |
| Headers.CleanHeaders | app/csvtojson/page.tsx:121-134 | The loop with the `seen` map returns the header names. |
| Headers.CleanName | app/csvtojson/page.tsx:123-127 | A base name is never empty. |
| Headers.CleanPlain | app/csvtojson/page.tsx:123-127 | A cell with no surrounding whitespace or quotes is its own name. |
| Headers.CleanQuoted | app/csvtojson/page.tsx:124-127 | One outer pair of matching `"` or `'` is removed. An empty quoted name becomes `column`. |
| Headers.CleanBlank | app/csvtojson/page.tsx:123-127 | A blank cell is named `column`. |
| Text.TrimSplits | app/csvtojson/page.tsx:123 | `trim` returns a contiguous middle part of the text, and what it removes before and after that part is whitespace. |
| Text.TrimPadded | app/csvtojson/page.tsx:123 | `trim` removes exactly the whitespace around a text whose ends are not whitespace. |
| Headers.CleanTrimmed | app/csvtojson/page.tsx:123 | A cell is trimmed before anything else: it gets the same name as its trimmed text. |
| Headers.CleanPadded | app/csvtojson/page.tsx:123-127 | An unquoted name with whitespace around it, such as ` a `, becomes the name without the whitespace. |
| Headers.CleanPaddedQuoted | app/csvtojson/page.tsx:123-127 | A quoted name with whitespace around the quotes, such as ` "a" `, loses the whitespace and then the quotes. An empty quoted name becomes `column`. |
| Headers.CountBeforeCounts | app/csvtojson/page.tsx:129-131 | The count of a base is the number of earlier cells with that base. |
| Headers.DedupeKeepsFirst | app/csvtojson/page.tsx:129-131 | A name keeps its base exactly at the base's first occurrence. |
| Headers.DedupeSameBaseDistinct | app/csvtojson/page.tsx:128-131 | Two cells with the same base get different names. |
| Headers.DedupeRepeated | app/csvtojson/page.tsx:128-131 | `a,a,a` gives `a,a_2,a_3`. |
| Headers.DedupeColliding | app/csvtojson/page.tsx:128-131 | `a_2,a,a` gives `a_2,a,a_2`: names can repeat. |
| Inference.ParseNumeral | app/csvtojson/page.tsx:147 | A cell matching `-?\d+(\.\d+)?` parses to a well-formed numeral whose text is the cell. |
| Inference.ParseNumeralText | app/csvtojson/page.tsx:147 | The text of every well-formed numeral matches the pattern and parses back to that numeral. |
| Inference.Normalize | app/csvtojson/page.tsx:151 | A non-zero value keeps its sign, and its significant digits have no leading or trailing zero. |
| Inference.NormalizeValue | app/csvtojson/page.tsx:151 | Normalizing keeps the numeral's value. |
| Inference.PrintRoundTrip | app/csvtojson/page.tsx:151-152 | Without exponent notation, `Number(String(n))` is `n`. |
| Inference.ExponentNotNumeral | app/csvtojson/page.tsx:152 | A number printed in exponent notation does not match the number pattern. |
| Inference.Infer | app/csvtojson/page.tsx:141 | `infer` gives the empty string exactly for the empty string. |
| Inference.NotBoolean | app/csvtojson/page.tsx:144 | Text starting with a digit or `-` is not a case-insensitive `true` or `false`. |
| Inference.PrintedNotLeadingZero | app/csvtojson/page.tsx:149 | Printed numbers never look like a leading-zero integer. |
| Inference.InferNumeral | app/csvtojson/page.tsx:147-153 | A short numeral that is not a leading-zero integer becomes the canonical text of its value. |
| Inference.InferIdempotent | app/csvtojson/page.tsx:138-157 | `infer(infer(v)) == infer(v)`. |
| Inference.InferKeeps | app/csvtojson/page.tsx:141-156 | A non-empty cell that is not a boolean and is not a short numeral outside the leading-zero guard is kept as it is. |
| Inference.InferKeepsNonNumeral | app/csvtojson/page.tsx:143-156 | A non-boolean cell whose first character is neither a digit nor `-` is kept as it is. |
| Inference.InferExampleHalf | app/csvtojson/page.tsx:147-153 | `0.50` becomes `0.5`. |
| Inference.InferExampleOne | app/csvtojson/page.tsx:147-153 | `1.0` becomes `1`. |
| Inference.InferExampleNegativeZero | app/csvtojson/page.tsx:147-153 | `-0` becomes `0`. |
| Inference.InferExampleNegativeLeadingZeros | app/csvtojson/page.tsx:149-153 | `-007` becomes `-7`, because the guard looks only at the first character. |
| Inference.InferExampleLeadingZeros | app/csvtojson/page.tsx:149 | `007` is kept. |
| Inference.InferExampleTrue | app/csvtojson/page.tsx:144 | `True` becomes `true`. |
| Inference.InferExampleTiny | app/csvtojson/page.tsx:151-152 | `0.0000001` becomes `1e-7`. |
| RecordBuilding.BuildRecord | app/csvtojson/page.tsx:164-172 | The padding and assignment loop returns the row's record. |
| RecordBuilding.BuildRecords | app/csvtojson/page.tsx:160-179 | The loop over the data rows returns their records, with the all-empty ones left out. |
| RecordBuilding.RecordKeys | app/csvtojson/page.tsx:170-172 | A record's keys are exactly the header names other than `__proto__`. |
| RecordBuilding.RecordValue | app/csvtojson/page.tsx:164-172 | A header's value is `infer` of its last same-named column's cell, or empty when the row is too short. |
| RecordBuilding.RecordIgnoresExtraCells | app/csvtojson/page.tsx:164-172 | Cells beyond the header count do not change the record. |
| RecordBuilding.TextKept | app/csvtojson/page.tsx:156 | A one-character cell that is neither a digit nor `-` is kept as it is. |
| RecordBuilding.PaddingExample | app/csvtojson/page.tsx:164-172 | Headers `a,b,c` over the row `x,y` give `c: ""`. |
| RecordBuilding.AllEmptyIff | app/csvtojson/page.tsx:174-176 | A record is dropped exactly when every cell reaching it is missing or exactly empty. |
| RecordBuilding.NonEmptyCellKeepsRecord | app/csvtojson/page.tsx:174-176 | A non-empty cell, whitespace included, under a header keeps the record. |
| RecordBuilding.Records | app/csvtojson/page.tsx:160-179 | There is at most one record per data row, and none without rows. |
| RecordBuilding.RecordsMembers | app/csvtojson/page.tsx:160-179 | A record is output exactly when some data row gives it and it is not all empty. |
| RecordBuilding.RecordsKeepOrder | app/csvtojson/page.tsx:160-179 | When no record is all empty, the output is one record per data row, in row order. |
| RecordBuilding.RecordsShape | app/csvtojson/page.tsx:160-179 | Every output record has a non-empty value. Its keys are header names other than `__proto__`. |
| Converter.Parse | app/csvtojson/page.tsx:118-135 | The only error is "CSV must have at least a header row": "Header row is empty" is never thrown. |
| Converter.ParseCsv | app/csvtojson/page.tsx:16-180 | `parseCSV` step by step returns the specified result or error. |
| Converter.BlankInputGivesNoRecords | app/csvtojson/page.tsx:17 | Empty or whitespace-only input gives no records and no error. |
| Converter.LoneByteOrderMark | app/csvtojson/page.tsx:17-20 | The blank test runs before the byte order mark is removed, so a lone mark gives no records. |
| Converter.ParseFailsIff | app/csvtojson/page.tsx:115-118 | Parsing fails exactly when the text is not blank but all its rows are blank. The error is then "CSV must have at least a header row". |
| Converter.EmptyQuotesFail | app/csvtojson/page.tsx:17-118 | The text `""` fails with "CSV must have at least a header row". |
| Converter.ParsedRecords | app/csvtojson/page.tsx:160-179 | Every output record has a non-empty value. Its keys are non-empty and never `__proto__`. |
| ImageGrid.TrimmedUrls | components/gallery/image-grid.tsx:22 | Kept URLs are non-empty and have no surrounding whitespace. |
| ImageGrid.UrlsWellFormed | components/gallery/image-grid.tsx:22 | Every URL is non-empty, trimmed and free of `;`. |
| ImageGrid.UrlsRoundTrip | components/gallery/image-grid.tsx:22 | Joining well-formed URLs with `;` and splitting them again gives the same URLs. |
| ImageGrid.BlankFieldHasNoUrls | components/gallery/image-grid.tsx:17-22 | A blank field lists no URLs. |
| ImageGrid.ExpandUnchangedIff | components/gallery/image-grid.tsx:17-27 | A review passes through unchanged exactly when it lists at most one URL. |
| ImageGrid.ExpandEntries | components/gallery/image-grid.tsx:30-35 | With several URLs there is one entry per URL, in order. Each entry has its trimmed URL, the derived ID, and every other field of the review. |
| ImageGrid.ExpandedIdValue | components/gallery/image-grid.tsx:34 | The derived ID is `id * 10^digits(i) + i`. |
| ImageGrid.ExpandedIdText | components/gallery/image-grid.tsx:34 | The derived ID's decimal text is the ID's text followed by the index's text. For ID 0 it is the index. |
| ImageGrid.ExpandedIdsDistinct | components/gallery/image-grid.tsx:33-34 | The entries of one review get distinct IDs. |
| ImageGrid.IdsCollideAcrossReviews | components/gallery/image-grid.tsx:33-34 | Entries of different reviews can share an ID: review 1's eleventh entry and review 11's first are both 110. |
| ImageGrid.ExpandReview | components/gallery/image-grid.tsx:17-35 | A review gives at least one entry. |
| ImageGrid.ExpandReviews | components/gallery/image-grid.tsx:13-36 | The gallery has at least one entry per review. |
| ImageGrid.ExpandReviewLength | components/gallery/image-grid.tsx:13-36 | A review gives `max(1, number of URLs)` entries. |
| ImageGrid.ExpandReviewsLength | components/gallery/image-grid.tsx:13-36 | The gallery size is the sum of `max(1, number of URLs)` over the reviews. |
| ImageGrid.ExpandReviewsAppend | components/gallery/image-grid.tsx:13-36 | Expansion distributes over concatenation, so review order is kept. |
| RatingsFilter.ToggleRating | components/gallery/ratings-filter.tsx:15-20 | Toggling flips the rating's membership and leaves every other rating's membership alone. |
| RatingsFilter.ToggleAppends | components/gallery/ratings-filter.tsx:16-18 | An absent rating is appended at the end and the earlier ones are kept. |
| RatingsFilter.ToggleRemoves | components/gallery/ratings-filter.tsx:16-17 | A present rating loses every occurrence, and every other value keeps its count. |
| RatingsFilter.Without | components/gallery/ratings-filter.tsx:17 | The filter keeps exactly the values other than the rating, and never lengthens the selection. |
| RatingsFilter.WithoutAppend | components/gallery/ratings-filter.tsx:17 | The filter distributes over concatenation, so the order of the kept values is unchanged. |
| RatingsFilter.ToggleTwice | components/gallery/ratings-filter.tsx:15-20 | Toggling an absent rating twice restores the selection. |
| RatingsFilter.ClearAll | components/gallery/ratings-filter.tsx:22-24 | Clearing leaves nothing selected. |
| RatingsFilter.SelectAll | components/gallery/ratings-filter.tsx:13-28 | Whatever the current selection, selecting all gives exactly the ratings 1 to 5, strictly descending, so each once with the highest first. |

## Left out

- The React page around `parseCSV` is outside the model: state hooks, JSX, `convertToJSON`'s error wiring and the `JSON.stringify` formatting of the output.
- Clipboard, file download and toast calls are browser I/O and are outside the model.
- Sniffer: the mean and variance are exact real numbers rather than IEEE doubles. The `Infinity` variance of a candidate with no informative line is an explicit `-Infinity` score.
- Inference: `Number(v)` followed by `String(num)` is modelled as exact decimal normalisation, following ECMAScript's Number::toString. This is exact for the cells it applies to, which are shorter than 15 characters and so hold at most 14 digits. `Number.isNaN` never holds for such cells, so that test is always passed.
- Inference: the `/i` boolean test folds only ASCII letters, as a regular expression without the Unicode flag does.
- RecordBuilding: a record is a map. JavaScript's key order (integer-like keys first, then insertion order) is not modelled.
- The `rows[0] \|\| []` fallback is not modelled, because `rows[0]` always exists at that point.
- ImageGrid: review fields other than `Review ID` and the image URL field are one map of text values.
- ImageGrid: `Review ID` is a non-negative integer, and `Number(...)` is exact. Precision lost above 2^53 is not modelled.
- ImageGrid and RatingsFilter: rendering, React keys and the `onRatingsChange` callback are not modelled; the new selection is the function's result.
- Only `""` is proved end to end to fail with "CSV must have at least a header row". Text made of delimiters only, such as `,,,`, is covered by `Converter.ParseFailsIff`, but no concrete example of it is proved.
