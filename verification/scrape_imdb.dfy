/** The pure parts of `scrape_imdb.py`: the range `random_with_N_digits`
    draws from, the clean-up of the year label of a search result, and the
    split of a result's credits paragraph into directors and stars. */
module ScrapeImdb {
  import opened Wrappers
  import opened Text
  import opened Decimal

  // ---------------------------------------------------------------------
  // random_with_N_digits
  // ---------------------------------------------------------------------

  /** The inclusive range `[10**(n-1), 10**n - 1]` that `random_with_N_digits(n)`
      draws from. For `n <= 0`, `10**(n-1)` is a float and `random.randint`
      refuses it, so there is no range. */
  function DigitRange(n: int): (r: Option<(nat, nat)>)
    ensures r.Some? <==> n >= 1
    ensures r.Some? ==> 1 <= r.value.0 <= r.value.1
  {
    if n >= 1 then Some((Pow10(n - 1), Pow10(n) - 1)) else None
  }

  /** Every number the draw can return has exactly `n` decimal digits. */
  lemma DrawHasNDigits(n: int, x: nat)
    requires DigitRange(n).Some?
    requires DigitRange(n).value.0 <= x <= DigitRange(n).value.1
    ensures |Show(x)| == n
  {
    ShowLength(x, n);
  }

  /** Every positive number with `n` digits can be drawn. */
  lemma NDigitsCanBeDrawn(n: int, x: nat)
    requires n >= 1 && x >= 1 && |Show(x)| == n
    ensures DigitRange(n).Some?
    ensures DigitRange(n).value.0 <= x <= DigitRange(n).value.1
  {
    ShowLengthBounds(x);
  }

  // ---------------------------------------------------------------------
  // Year clean-up
  // ---------------------------------------------------------------------

  function RemoveParens(s: string): (r: string)
  {
    RemoveChar(RemoveChar(s, '('), ')')
  }

  /** The year label of a search result with its parentheses removed, and
      reduced to the second space-separated field when it holds a space, as
      in `"(I) (2019)"`. */
  function CleanYear(raw: string): (year: string)
    ensures '(' !in year && ')' !in year && ' ' !in year
  {
    var t := RemoveParens(raw);
    RemoveCharKeeps(RemoveChar(raw, '('), ')');
    if ' ' in t then
      var fields := Split(t, ' ');
      assert fields[1] in fields;
      fields[1]
    else t
  }

  /** A label without a space is returned with only its parentheses removed. */
  lemma CleanYearNoSpace(raw: string)
    requires ' ' !in RemoveParens(raw)
    ensures CleanYear(raw) == RemoveParens(raw)
  {
  }

  /** A label with a space yields the text between its first and second space. */
  lemma CleanYearSecondField(raw: string, first: string, second: string, rest: string)
    requires RemoveParens(raw) == first + " " + second + rest
    requires ' ' !in first && ' ' !in second
    requires rest == "" || rest[0] == ' '
    ensures CleanYear(raw) == second
  {
    var t := RemoveParens(raw);
    SecondField(t, first, second, rest);
  }

  /** The second space-separated field of `first + " " + second + rest`. */
  lemma SecondField(t: string, first: string, second: string, rest: string)
    requires t == first + " " + second + rest
    requires ' ' !in first && ' ' !in second
    requires rest == "" || rest[0] == ' '
    ensures ' ' in t && |Split(t, ' ')| >= 2 && Split(t, ' ')[1] == second
  {
    assert t == first + [' '] + (second + rest);
    assert t[|first|] == ' ';
    SplitFirstField(first, second + rest, ' ');
    if rest == "" {
      SplitNoSeparator(second, ' ');
      assert second + rest == second;
    } else {
      assert second + rest == second + [' '] + rest[1..];
      SplitFirstField(second, rest[1..], ' ');
    }
  }

  /** A label `(a) (b)`, as IMDb writes a year `b` disambiguated by a roman
      numeral `a`, cleans to `b`. */
  lemma CleanYearTwoGroups(a: string, b: string)
    requires '(' !in a && ')' !in a && ' ' !in a
    requires '(' !in b && ')' !in b && ' ' !in b
    ensures CleanYear("(" + a + ") (" + b + ")") == b
  {
    var raw := "(" + a + ") (" + b + ")";
    RemoveOpenings(a, b);
    RemoveClosings(a, b);
    CleanYearSecondField(raw, a, b, "");
  }

  lemma RemoveOpenings(a: string, b: string)
    requires '(' !in a && '(' !in b
    ensures RemoveChar("(" + a + ") (" + b + ")", '(') == a + ") " + b + ")"
  {
    RemoveEach("(" + a + ") (" + b + ")", "(", a, ") (", b, ")", '(');
    RemoveCharAbsent(a, '(');
    RemoveCharAbsent(b, '(');
    RemoveFromDelimiters();
    assert "" + a == a;
  }

  lemma RemoveClosings(a: string, b: string)
    requires ')' !in a && ')' !in b
    ensures RemoveChar(a + ") " + b + ")", ')') == a + " " + b + ""
  {
    RemoveEach(a + ") " + b + ")", a, ") ", b, ")", "", ')');
    RemoveCharAbsent(a, ')');
    RemoveCharAbsent(b, ')');
    RemoveFromDelimiters();
  }

  /** What the two passes leave of the delimiters around the groups. */
  lemma RemoveFromDelimiters()
    ensures RemoveChar("(", '(') == "" && RemoveChar(") (", '(') == ") " && RemoveChar(")", '(') == ")"
    ensures RemoveChar(") ", ')') == " " && RemoveChar(")", ')') == "" && RemoveChar("", ')') == ""
  {
  }

  /** `RemoveChar` over five concatenated parts. */
  lemma RemoveEach(s: string, p: string, q: string, r: string, t: string, u: string, c: char)
    requires s == p + q + r + t + u
    ensures RemoveChar(s, c)
            == RemoveChar(p, c) + RemoveChar(q, c) + RemoveChar(r, c) + RemoveChar(t, c) + RemoveChar(u, c)
  {
    RemoveCharAppend(p + q + r + t, u, c);
    RemoveCharAppend(p + q + r, t, c);
    RemoveCharAppend(p + q, r, c);
    RemoveCharAppend(p, q, c);
  }

  lemma CleanYearExample()
    ensures CleanYear("(I) (2019)") == "2019"
  {
    assert "(I) (2019)" == "(" + "I" + ") (" + "2019" + ")";
    CleanYearTwoGroups("I", "2019");
  }

  /** Cleaning a year that is already clean changes nothing. */
  lemma CleanYearIdempotent(raw: string)
    ensures CleanYear(CleanYear(raw)) == CleanYear(raw)
  {
    var y := CleanYear(raw);
    RemoveCharAbsent(y, '(');
    RemoveCharAbsent(y, ')');
  }

  // ---------------------------------------------------------------------
  // Credits paragraph
  // ---------------------------------------------------------------------

  /** The children of a result's credits paragraph, in page order: loose
      text, a link to a person, or a `<span>` separating directors from stars. */
  datatype Sibling = Text(text: string) | Anchor(name: string) | Span

  /** The `directors` field is absent when the paragraph has no director label. */
  datatype Credits = Credits(directors: Option<string>, stars: string)

  /** Where the Python code raises: no link at all, a first link not preceded
      by a text label, or a `Directors:` label with no span after the first link. */
  datatype CreditsError = NoAnchor | NoLabel | NoSpanAfterDirectors

  /** The names of the links among `sibs`, in page order. */
  function AnchorNames(sibs: seq<Sibling>): seq<string>
  {
    if |sibs| == 0 then []
    else (if sibs[0].Anchor? then [sibs[0].name] else []) + AnchorNames(sibs[1..])
  }

  /** The position of the first link, as `credit_container.find('a')` finds it. */
  function FirstAnchor(sibs: seq<Sibling>): (r: Option<nat>)
    ensures r.Some? ==> r.value < |sibs| && sibs[r.value].Anchor?
    ensures r.Some? ==> forall m :: 0 <= m < r.value ==> !sibs[m].Anchor?
    ensures r.None? <==> forall m :: 0 <= m < |sibs| ==> !sibs[m].Anchor?
  {
    if |sibs| == 0 then None
    else if sibs[0].Anchor? then Some(0)
    else match FirstAnchor(sibs[1..])
      case None => None
      case Some(k) => Some(k + 1)
  }

  /** The `Directors:` walk: starting at position `i`, skip loose text,
      collect the name of every link, and stop at the first span; running off
      the end of the paragraph fails. Returns the names and the span's position. */
  function WalkToSpan(sibs: seq<Sibling>, i: nat): (r: Option<(seq<string>, nat)>)
    requires i <= |sibs|
    ensures r.None? <==> forall m :: i <= m < |sibs| ==> !sibs[m].Span?
    ensures r.Some? ==> i <= r.value.1 < |sibs| && sibs[r.value.1].Span?
    ensures r.Some? ==> forall m :: i <= m < r.value.1 ==> !sibs[m].Span?
    ensures r.Some? ==> r.value.0 == AnchorNames(sibs[i..r.value.1])
    decreases |sibs| - i
  {
    if i == |sibs| then None
    else match sibs[i]
      case Span => Some(([], i))
      case Text(_) =>
        (match WalkToSpan(sibs, i + 1)
         case None => None
         case Some(found) =>
           assert sibs[i..found.1][1..] == sibs[i + 1..found.1];
           Some(found))
      case Anchor(n) =>
        match WalkToSpan(sibs, i + 1)
        case None => None
        case Some(found) =>
          assert sibs[i..found.1][1..] == sibs[i + 1..found.1];
          Some(([n] + found.0, found.1))
  }

  /** The credit split of `parse_search_page`: the text just before the first
      link decides between one director, several directors, or none. */
  function ParseCredits(sibs: seq<Sibling>): (r: Result<Credits, CreditsError>)
    ensures r == Failure(NoAnchor) <==> FirstAnchor(sibs).None?
    ensures FirstAnchor(sibs).Some? ==>
      var k := FirstAnchor(sibs).value;
      (r == Failure(NoLabel) <==> (k == 0 || !sibs[k - 1].Text?))
  {
    match FirstAnchor(sibs)
    case None => Failure(NoAnchor)
    case Some(k) =>
      if k == 0 || !sibs[k - 1].Text? then Failure(NoLabel)
      else SplitCredits(sibs, k, Strip(sibs[k - 1].text))
  }

  /** The three branches of the split, for the first link at `k` and the
      stripped label `tag` before it. */
  function SplitCredits(sibs: seq<Sibling>, k: nat, tag: string): (r: Result<Credits, CreditsError>)
    requires k < |sibs| && sibs[k].Anchor?
    ensures r.Failure? ==> r.error == NoSpanAfterDirectors
  {
    if tag == "Director:" then
      Success(Credits(Some(sibs[k].name), Join(AnchorNames(sibs[k + 1..]), ',')))
    else if tag == "Directors:" then
      match WalkToSpan(sibs, k)
      case None => Failure(NoSpanAfterDirectors)
      case Some(found) =>
        Success(Credits(Some(Join(found.0, ',')), Join(AnchorNames(sibs[found.1 + 1..]), ',')))
    else
      Success(Credits(None, Join(AnchorNames(sibs), ',')))
  }

  /** The label just before the first link, stripped; absent when the
      Python code would fail before reading it. */
  function Label(sibs: seq<Sibling>): Option<string>
  {
    match FirstAnchor(sibs)
    case None => None
    case Some(k) => if k == 0 || !sibs[k - 1].Text? then None else Some(Strip(sibs[k - 1].text))
  }

  lemma ParseCreditsByLabel(sibs: seq<Sibling>)
    requires Label(sibs).Some?
    ensures FirstAnchor(sibs).Some?
    ensures ParseCredits(sibs) == SplitCredits(sibs, FirstAnchor(sibs).value, Label(sibs).value)
  {
  }

  // ---------------------------------------------------------------------
  // Lemmas about the credit split
  // ---------------------------------------------------------------------

  lemma {:induction false} AnchorNamesAppend(a: seq<Sibling>, b: seq<Sibling>)
    ensures AnchorNames(a + b) == AnchorNames(a) + AnchorNames(b)
  {
    if |a| > 0 {
      assert (a + b)[1..] == a[1..] + b;
      AnchorNamesAppend(a[1..], b);
    } else {
      assert a + b == b;
    }
  }

  lemma {:induction false} AnchorNamesNone(sibs: seq<Sibling>)
    requires forall m :: 0 <= m < |sibs| ==> !sibs[m].Anchor?
    ensures AnchorNames(sibs) == []
  {
    if |sibs| > 0 {
      AnchorNamesNone(sibs[1..]);
    }
  }

  /** The `Director:` case of the split, unfolded: the first link is the
      director and every later link is a star. That this loses and repeats no
      link is `AnchorsAroundFirst`. */
  lemma SingleDirector(sibs: seq<Sibling>, k: nat)
    requires FirstAnchor(sibs) == Some(k) && Label(sibs) == Some("Director:")
    ensures ParseCredits(sibs) == Success(Credits(Some(sibs[k].name), Join(AnchorNames(sibs[k + 1..]), ',')))
  {
    ParseCreditsByLabel(sibs);
  }

  /** The links of a paragraph are its first link followed by the links after
      it, so the `Director:` case loses and repeats no link. */
  lemma {:induction false} AnchorsAroundFirst(sibs: seq<Sibling>, k: nat)
    requires FirstAnchor(sibs) == Some(k)
    ensures AnchorNames(sibs) == [sibs[k].name] + AnchorNames(sibs[k + 1..])
  {
    assert sibs == sibs[..k] + ([sibs[k]] + sibs[k + 1..]);
    AnchorNamesAppend(sibs[..k], [sibs[k]] + sibs[k + 1..]);
    AnchorNamesNone(sibs[..k]);
    assert ([sibs[k]] + sibs[k + 1..])[1..] == sibs[k + 1..];
  }

  /** The `Directors:` case of the split, unfolded: the links before the span
      are the directors and the links after it the stars. The walk's own
      contract says which span that is, and `SeveralDirectorsCoverLinks` that
      together they are every link. */
  lemma SeveralDirectors(sibs: seq<Sibling>, k: nat)
    requires FirstAnchor(sibs) == Some(k) && Label(sibs) == Some("Directors:")
    requires WalkToSpan(sibs, k).Some?
    ensures var found := WalkToSpan(sibs, k).value;
            ParseCredits(sibs)
            == Success(Credits(Some(Join(AnchorNames(sibs[k..found.1]), ',')),
                               Join(AnchorNames(sibs[found.1 + 1..]), ',')))
  {
    ParseCreditsByLabel(sibs);
    DirectorsBranch(sibs, k);
  }

  /** The directors and the stars of the `Directors:` case are, together,
      every link of the paragraph, in page order: none is lost or repeated. */
  lemma SeveralDirectorsCoverLinks(sibs: seq<Sibling>, k: nat)
    requires FirstAnchor(sibs) == Some(k) && WalkToSpan(sibs, k).Some?
    ensures var found := WalkToSpan(sibs, k).value;
            AnchorNames(sibs) == found.0 + AnchorNames(sibs[found.1 + 1..])
  {
    AnchorsAroundSpan(sibs, k, WalkToSpan(sibs, k).value.1);
  }

  lemma DirectorsBranch(sibs: seq<Sibling>, k: nat)
    requires k < |sibs| && sibs[k].Anchor? && WalkToSpan(sibs, k).Some?
    ensures var found := WalkToSpan(sibs, k).value;
            SplitCredits(sibs, k, "Directors:")
            == Success(Credits(Some(Join(found.0, ',')), Join(AnchorNames(sibs[found.1 + 1..]), ',')))
  {
    assert |"Directors:"| != |"Director:"|;
  }

  /** The links of a paragraph, cut at a span after its first link. */
  lemma AnchorsAroundSpan(sibs: seq<Sibling>, k: nat, j: nat)
    requires FirstAnchor(sibs) == Some(k)
    requires k <= j < |sibs| && sibs[j].Span?
    ensures AnchorNames(sibs) == AnchorNames(sibs[k..j]) + AnchorNames(sibs[j + 1..])
  {
    CutAtSpan(sibs, k, j);
  }

  lemma CutAtSpan(sibs: seq<Sibling>, k: nat, j: nat)
    requires k <= j < |sibs| && sibs[j].Span?
    requires forall m :: 0 <= m < k ==> !sibs[m].Anchor?
    ensures AnchorNames(sibs) == AnchorNames(sibs[k..j]) + AnchorNames(sibs[j + 1..])
  {
    AnchorNamesCut(sibs, j);
    AnchorNamesAfterPrefix(sibs[..j], k);
    assert sibs[..j][k..] == sibs[k..j];
    AnchorNamesAtSpan(sibs, j);
  }

  /** Dropping a prefix without links keeps the same links. */
  lemma AnchorNamesAfterPrefix(sibs: seq<Sibling>, k: nat)
    requires k <= |sibs|
    requires forall m :: 0 <= m < k ==> !sibs[m].Anchor?
    ensures AnchorNames(sibs) == AnchorNames(sibs[k..])
  {
    AnchorNamesCut(sibs, k);
    AnchorNamesNone(sibs[..k]);
  }

  /** A span at position `j` contributes no link. */
  lemma AnchorNamesAtSpan(sibs: seq<Sibling>, j: nat)
    requires j < |sibs| && sibs[j].Span?
    ensures AnchorNames(sibs[j..]) == AnchorNames(sibs[j + 1..])
  {
    assert sibs[j..][0] == sibs[j];
    assert sibs[j..][1..] == sibs[j + 1..];
  }

  lemma AnchorNamesCut(sibs: seq<Sibling>, j: nat)
    requires j <= |sibs|
    ensures AnchorNames(sibs) == AnchorNames(sibs[..j]) + AnchorNames(sibs[j..])
  {
    assert sibs == sibs[..j] + sibs[j..];
    AnchorNamesAppend(sibs[..j], sibs[j..]);
  }

  /** The failing `Directors:` case, unfolded: with no span after the first
      link the walk runs off the paragraph, as `WalkToSpan`'s contract says,
      and parsing fails. */
  lemma SeveralDirectorsNeedSpan(sibs: seq<Sibling>)
    requires Label(sibs) == Some("Directors:")
    requires forall m :: FirstAnchor(sibs).value <= m < |sibs| ==> !sibs[m].Span?
    ensures ParseCredits(sibs) == Failure(NoSpanAfterDirectors)
  {
    ParseCreditsByLabel(sibs);
  }

  /** The remaining case of the split, unfolded: with any other label there
      is no directors field, and every link of the paragraph is a star. */
  lemma NoDirectorLabel(sibs: seq<Sibling>)
    requires Label(sibs).Some?
    requires Label(sibs) != Some("Director:") && Label(sibs) != Some("Directors:")
    ensures ParseCredits(sibs) == Success(Credits(None, Join(AnchorNames(sibs), ',')))
  {
    ParseCreditsByLabel(sibs);
  }

  /** The stars field lists the names in page order, separated by single
      commas: it splits back into them when no name holds a comma, and an
      empty list gives the empty string. */
  lemma StarsReadBack(names: seq<string>)
    requires forall n :: n in names ==> ',' !in n
    ensures names == [] ==> Join(names, ',') == ""
    ensures names != [] ==> Split(Join(names, ','), ',') == names
  {
    if names != [] {
      SplitJoin(names, ',');
    }
  }
}
