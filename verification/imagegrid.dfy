/** The expansion of reviews into gallery entries in `ImageGrid`
    (components/gallery/image-grid.tsx): a review that publishes several image URLs,
    separated by `;`, becomes one entry per URL with a derived review ID. */
module ImageGrid {
  import opened Results
  import opened Text

  /** A review as the gallery sees it: its `Review ID`, its optional
      `Images Published Image URL` field, and every other field by name. */
  datatype Review = Review(reviewId: nat, imageUrls: Option<string>, otherFields: map<string, string>)

  /** `pieces.map(url => url.trim()).filter(url => url !== '')`. */
  function TrimmedUrls(pieces: seq<string>): (urls: seq<string>)
    ensures |urls| <= |pieces|
    ensures forall i :: 0 <= i < |urls| ==>
              urls[i] != [] && !IsWhitespace(urls[i][0]) && !IsWhitespace(urls[i][|urls[i]| - 1])
  {
    if pieces == [] then []
    else
      var t := Trim(pieces[0]);
      (if t == [] then [] else [t]) + TrimmedUrls(pieces[1..])
  }

  /** The URLs a `;`-separated field lists. */
  function Urls(field: string): seq<string> {
    TrimmedUrls(Split(field, ';'))
  }

  /** The URLs of a review: none when the field is absent. */
  function UrlsOf(r: Review): seq<string> {
    match r.imageUrls
    case None => []
    case Some(s) => Urls(s)
  }

  /** `Number(`${id}${index}`)`: the number written by the ID's digits followed by the
      index's digits. */
  function ExpandedId(id: nat, index: nat): nat {
    DigitsValueAppend(DecimalString(id), DecimalString(index));
    DigitsValue(DecimalString(id) + DecimalString(index))
  }

  /** The entries one review contributes to the gallery. */
  function ExpandReview(r: Review): (entries: seq<Review>)
    ensures |entries| >= 1
  {
    match r.imageUrls
    case None => [r]
    case Some(s) =>
      if Trim(s) == [] then [r]
      else
        var urls := Urls(s);
        if |urls| <= 1 then [r]
        else
          seq(|urls|, i requires 0 <= i < |urls| =>
            r.(imageUrls := Some(urls[i]), reviewId := ExpandedId(r.reviewId, i)))
  }

  /** `reviews.flatMap(...)`: the entries of all reviews, review by review. */
  function ExpandReviews(reviews: seq<Review>): (entries: seq<Review>)
    ensures |entries| >= |reviews|
  {
    if reviews == [] then [] else ExpandReview(reviews[0]) + ExpandReviews(reviews[1..])
  }

  // ---------------------------------------------------------------------------
  // The URL list.

  lemma {:induction false} TrimmedUrlsAvoid(pieces: seq<string>, c: char)
    requires forall k :: 0 <= k < |pieces| ==> c !in pieces[k]
    ensures forall i :: 0 <= i < |TrimmedUrls(pieces)| ==> c !in TrimmedUrls(pieces)[i]
  {
    if pieces != [] {
      TrimmedUrlsAvoid(pieces[1..], c);
      if c in Trim(pieces[0]) {
        TrimInside(pieces[0], c);
      }
    }
  }

  /** Every URL is non-empty, has no surrounding whitespace and no `;`. */
  lemma UrlsWellFormed(field: string)
    ensures forall i :: 0 <= i < |Urls(field)| ==>
              var u := Urls(field)[i];
              u != [] && !IsWhitespace(u[0]) && !IsWhitespace(u[|u| - 1]) && ';' !in u
  {
    var pieces := Split(field, ';');
    TrimmedUrlsAvoid(pieces, ';');
    var urls := TrimmedUrls(pieces);
    assert Urls(field) == urls;
  }

  lemma {:induction false} TrimmedUrlsKeep(urls: seq<string>)
    requires forall i :: 0 <= i < |urls| ==>
               urls[i] != [] && !IsWhitespace(urls[i][0]) && !IsWhitespace(urls[i][|urls[i]| - 1])
    ensures TrimmedUrls(urls) == urls
  {
    if urls != [] {
      TrimKeeps(urls[0]);
      TrimmedUrlsKeep(urls[1..]);
      assert [urls[0]] + urls[1..] == urls;
    }
  }

  /** Listing well-formed URLs separated by `;` and reading them back gives the same
      URLs. */
  lemma UrlsRoundTrip(urls: seq<string>)
    requires |urls| >= 1
    requires forall i :: 0 <= i < |urls| ==>
               urls[i] != [] && !IsWhitespace(urls[i][0]) && !IsWhitespace(urls[i][|urls[i]| - 1])
               && ';' !in urls[i]
    ensures Urls(Join(urls, ';')) == urls
  {
    SplitJoin(urls, ';');
    TrimmedUrlsKeep(urls);
  }

  /** A blank field lists no URLs. */
  lemma BlankFieldHasNoUrls(field: string)
    requires Trim(field) == []
    ensures Urls(field) == []
  {
    assert ';' !in field;
    assert Split(field, ';') == [field];
    assert TrimmedUrls([field]) == [] + TrimmedUrls([field][1..]);
  }

  // ---------------------------------------------------------------------------
  // The derived review ID.

  lemma ExpandedIdValue(id: nat, index: nat)
    ensures ExpandedId(id, index) == id * Pow10(|DecimalString(index)|) + index
  {
    DigitsValueAppend(DecimalString(id), DecimalString(index));
    DecimalStringRoundTrip(id);
    DecimalStringRoundTrip(index);
  }

  /** A digit string with no leading zero has a positive value. */
  lemma {:induction false} LeadingDigitPositive(s: string)
    requires s != [] && AllDigits(s) && s[0] != '0'
    ensures DigitsValue(s) >= 1
    decreases |s|
  {
    if |s| > 1 {
      var p := s[..|s| - 1];
      assert p[0] == s[0];
      LeadingDigitPositive(p);
    }
  }

  /** A digit string with no leading zero is the decimal text of its value. */
  lemma {:induction false} CanonicalDigits(s: string)
    requires s != [] && AllDigits(s) && (s[0] != '0' || |s| == 1)
    ensures DecimalString(DigitsValue(s)) == s
    decreases |s|
  {
    var d := DigitValue(s[|s| - 1]);
    if |s| > 1 {
      var p := s[..|s| - 1];
      assert p[0] == s[0];
      CanonicalDigits(p);
      LeadingDigitPositive(p);
      var n := DigitsValue(s);
      assert n == DigitsValue(p) * 10 + d;
      assert n / 10 == DigitsValue(p) && n % 10 == d;
      assert s == p + [s[|s| - 1]];
    }
  }

  /** The decimal text of a derived ID is the review ID's text followed by the index's
      text; for review ID 0 the leading zero falls away and the ID is the index. */
  lemma ExpandedIdText(id: nat, index: nat)
    ensures id > 0 ==> DecimalString(ExpandedId(id, index)) == DecimalString(id) + DecimalString(index)
    ensures id == 0 ==> ExpandedId(id, index) == index
  {
    var a, b := DecimalString(id), DecimalString(index);
    DigitsValueAppend(a, b);
    if id > 0 {
      assert a[0] != '0' by {
        if a[0] == '0' {
          DecimalStringRoundTrip(id);
        }
      }
      assert (a + b)[0] == a[0];
      CanonicalDigits(a + b);
    } else {
      ExpandedIdValue(id, index);
    }
  }

  /** The entries of one review get distinct IDs. */
  lemma ExpandedIdsDistinct(id: nat, i: nat, j: nat)
    requires i != j
    ensures ExpandedId(id, i) != ExpandedId(id, j)
  {
    ExpandedIdText(id, i);
    ExpandedIdText(id, j);
    if id > 0 && ExpandedId(id, i) == ExpandedId(id, j) {
      var a := DecimalString(id);
      var ti, tj := a + DecimalString(i), a + DecimalString(j);
      assert ti[|a|..] == DecimalString(i) && tj[|a|..] == DecimalString(j);
      DecimalStringInjective(i, j);
    }
  }

  /** IDs of entries from different reviews can coincide: the eleventh entry of
      review 1 and the first entry of review 11 both get ID 110. */
  lemma IdsCollideAcrossReviews()
    ensures ExpandedId(1, 10) == ExpandedId(11, 0) == 110
  {
    ExpandedIdValue(1, 10);
    ExpandedIdValue(11, 0);
    assert DecimalString(10) == "10" && DecimalString(0) == "0";
  }

  // ---------------------------------------------------------------------------
  // The entries of a review, and of a list of reviews.

  /** A review is passed through unchanged exactly when it lists at most one URL:
      its field is absent, blank, or names a single URL (kept untrimmed). */
  lemma ExpandUnchangedIff(r: Review)
    ensures ExpandReview(r) == [r] <==> |UrlsOf(r)| <= 1
  {
    match r.imageUrls
    case None =>
    case Some(s) =>
      if Trim(s) == [] {
        BlankFieldHasNoUrls(s);
      } else if |Urls(s)| > 1 {
        assert |ExpandReview(r)| == |Urls(s)|;
      }
  }

  /** A review listing several URLs becomes one entry per URL, in order: each entry
      holds its trimmed URL and the derived ID, and every other field of the review. */
  lemma ExpandEntries(r: Review)
    requires |UrlsOf(r)| >= 2
    ensures var e, urls := ExpandReview(r), UrlsOf(r);
            |e| == |urls| &&
            forall i :: 0 <= i < |e| ==>
              e[i].imageUrls == Some(urls[i]) && e[i].reviewId == ExpandedId(r.reviewId, i)
              && e[i].otherFields == r.otherFields
  {
    var s := r.imageUrls.value;
    if Trim(s) == [] {
      BlankFieldHasNoUrls(s);
    }
  }

  /** `max(1, n)`. */
  function AtLeastOne(n: nat): nat {
    if n < 1 then 1 else n
  }

  /** The gallery size for `reviews`: each review counts once per URL, and at least
      once. */
  function EntryCount(reviews: seq<Review>): nat {
    if reviews == [] then 0 else AtLeastOne(|UrlsOf(reviews[0])|) + EntryCount(reviews[1..])
  }

  lemma ExpandReviewLength(r: Review)
    ensures |ExpandReview(r)| == AtLeastOne(|UrlsOf(r)|)
  {
    ExpandUnchangedIff(r);
    if |UrlsOf(r)| >= 2 {
      ExpandEntries(r);
    }
  }

  /** The gallery has one entry per listed URL of each review, and one for each
      review with at most one URL. */
  lemma {:induction false} ExpandReviewsLength(reviews: seq<Review>)
    ensures |ExpandReviews(reviews)| == EntryCount(reviews)
  {
    if reviews != [] {
      ExpandReviewLength(reviews[0]);
      ExpandReviewsLength(reviews[1..]);
    }
  }

  /** Expanding two lists one after the other is expanding them together: the
      reviews' order is kept. */
  lemma {:induction false} ExpandReviewsAppend(a: seq<Review>, b: seq<Review>)
    ensures ExpandReviews(a + b) == ExpandReviews(a) + ExpandReviews(b)
  {
    if a == [] {
      assert a + b == b;
    } else {
      assert (a + b)[0] == a[0] && (a + b)[1..] == a[1..] + b;
      ExpandReviewsAppend(a[1..], b);
    }
  }
}
