/** The URL builders of `utils.py`: poster and title pages for a list of
    IMDb ids, and the advanced-search URL for one year, page, rating range
    and genre selection. */
module Utils {
  import opened Wrappers
  import opened Text
  import opened Decimal

  /** A one-placeholder format string `before + "{}" + after`; `Fill` is
      Python's `template.format(arg)` for it. */
  datatype Template = Template(before: string, after: string)
  {
    function Fill(arg: string): (url: string)
      ensures |url| == |before| + |arg| + |after|
      ensures url[..|before|] == before && url[|url| - |after|..] == after
    {
      before + arg + after
    }

    /** The argument a filled URL was built from: the part between the
        template's fixed prefix and suffix. */
    function ArgOf(url: string): string
      requires |url| >= |before| + |after|
    {
      url[|before|..|url| - |after|]
    }
  }

  /** `https://www.imdb.com/title/{}/mediaindex?refine=poster` */
  const PosterTemplate := Template("https://www.imdb.com/title/", "/mediaindex?refine=poster")
  /** `https://www.imdb.com/title/{}` */
  const TitleTemplate := Template("https://www.imdb.com/title/", "")

  const SearchBase := "https://www.imdb.com/search/title/?title_type=feature&languages=en"
  const SortFragment := "&sort=num_votes,desc"

  /** Formats the template once per id, keeping the order of `ids`. */
  method FillEach(t: Template, ids: seq<string>) returns (urls: seq<string>)
    ensures |urls| == |ids|
    ensures forall k :: 0 <= k < |ids| ==> urls[k] == t.Fill(ids[k])
    ensures forall k :: 0 <= k < |ids| ==>
      |urls[k]| >= |t.before| + |t.after| && t.ArgOf(urls[k]) == ids[k]
  {
    urls := [];
    var i := 0;
    while i < |ids|
      invariant 0 <= i <= |ids|
      invariant |urls| == i
      invariant forall k :: 0 <= k < i ==> urls[k] == t.Fill(ids[k])
    {
      urls := urls + [t.Fill(ids[i])];
      i := i + 1;
    }
    forall k | 0 <= k < |ids|
      ensures t.ArgOf(urls[k]) == ids[k]
    {
      FillArgOf(t, ids[k]);
    }
  }

  /** `getMediaURL(ids)`: the poster-gallery URL of every id, in order. */
  method GetMediaURL(ids: seq<string>) returns (urls: seq<string>)
    ensures |urls| == |ids|
    ensures forall k :: 0 <= k < |ids| ==>
      urls[k] == "https://www.imdb.com/title/" + ids[k] + "/mediaindex?refine=poster"
    ensures forall k :: 0 <= k < |ids| ==> PosterTemplate.ArgOf(urls[k]) == ids[k]
  {
    urls := FillEach(PosterTemplate, ids);
  }

  /** `getTitleURL(ids)`: the title-page URL of every id, in order. */
  method GetTitleURL(ids: seq<string>) returns (urls: seq<string>)
    ensures |urls| == |ids|
    ensures forall k :: 0 <= k < |ids| ==> urls[k] == "https://www.imdb.com/title/" + ids[k]
    ensures forall k :: 0 <= k < |ids| ==> TitleTemplate.ArgOf(urls[k]) == ids[k]
  {
    urls := FillEach(TitleTemplate, ids);
  }

  function RatingFragment(rating: (string, string)): string
  {
    "&user_rating=" + rating.0 + "," + rating.1
  }

  function YearFragment(year: int): string
  {
    "&release_date=" + ShowInt(year)
  }

  /** The key in front of the page offset. */
  const StartKey := "&&start="

  function PageFragment(page: string): string
  {
    StartKey + page
  }

  function GenreFragment(genres: seq<string>): string
  {
    "&genres=" + Join(genres, ',')
  }

  /** What each optional argument contributes: its fragment, or nothing. */
  function RatingPart(rating: Option<(string, string)>): string
  {
    if rating.Some? then RatingFragment(rating.value) else ""
  }

  function YearPart(year: Option<int>): string
  {
    if year.Some? then YearFragment(year.value) else ""
  }

  function PagePart(page: Option<string>): string
  {
    if page.Some? then PageFragment(page.value) else ""
  }

  function GenrePart(genre: Option<seq<string>>): string
  {
    if genre.Some? then GenreFragment(genre.value) else ""
  }

  /** Six pieces concatenated in order. */
  function Assemble(a: string, b: string, c: string, d: string, e: string, f: string): string
  {
    a + b + c + d + e + f
  }

  /** `getSearchURL(year, page, rating, genre)`. The rating bounds are given
      already rendered, as `str(float)` would render them; `page` is already
      a string at every call site. */
  function GetSearchURL(year: Option<int>, page: Option<string>,
                        rating: Option<(string, string)>, genre: Option<seq<string>>): string
  {
    SearchURLOn(SearchBase, SortFragment, year, page, rating, genre)
  }

  /** The same assembly on any base URL and sort fragment: the lemmas below
      are proved at this level, where the two constants are opaque strings. */
  function SearchURLOn(base: string, sort: string, year: Option<int>, page: Option<string>,
                       rating: Option<(string, string)>, genre: Option<seq<string>>): string
  {
    Assemble(base, RatingPart(rating), YearPart(year), sort, PagePart(page), GenrePart(genre))
  }

  /** `s` occurs in `url` starting at position `i`. */
  predicate OccursAt(url: string, s: string, i: nat)
  {
    i + |s| <= |url| && url[i..i + |s|] == s
  }

  // ---------------------------------------------------------------------
  // Lemmas
  // ---------------------------------------------------------------------

  /** The argument can be read back from a filled template. */
  lemma FillArgOf(t: Template, arg: string)
    ensures t.ArgOf(t.Fill(arg)) == arg
  {
    var url := t.Fill(arg);
    assert url[|t.before|..|url| - |t.after|] == arg;
  }

  /** Every search URL starts with the base search URL. */
  lemma SearchURLStartsWithBase(year: Option<int>, page: Option<string>,
                                rating: Option<(string, string)>, genre: Option<seq<string>>)
    ensures OccursAt(GetSearchURL(year, page, rating, genre), SearchBase, 0)
  {
    StartsWithBaseOn(SearchBase, SortFragment, year, page, rating, genre);
  }

  /** With no optional argument the URL is the base followed by the sort order. */
  lemma SearchURLNoArguments()
    ensures GetSearchURL(None, None, None, None) == SearchBase + SortFragment
  {
    NoArgumentsOn(SearchBase, SortFragment);
  }

  /** Whatever the arguments, the sort order appears right after the base
      URL and the rating and year fragments. */
  lemma SortAlwaysPresent(year: Option<int>, page: Option<string>,
                          rating: Option<(string, string)>, genre: Option<seq<string>>)
    ensures OccursAt(GetSearchURL(year, page, rating, genre), SortFragment,
                     |SearchBase| + |RatingPart(rating)| + |YearPart(year)|)
  {
    FourthOccurs(SearchBase, RatingPart(rating), YearPart(year), SortFragment, PagePart(page), GenrePart(genre));
  }

  /** A rating adds exactly its fragment, right after the base URL. */
  lemma RatingAddsFragment(year: Option<int>, page: Option<string>,
                           rating: (string, string), genre: Option<seq<string>>)
    ensures var without := GetSearchURL(year, page, None, genre);
            GetSearchURL(year, page, Some(rating), genre)
            == SearchBase + RatingFragment(rating) + without[|SearchBase|..]
  {
    RatingAddsOn(SearchBase, SortFragment, year, page, rating, genre);
  }

  /** A year adds exactly its fragment, right after whatever the rating
      contributed. */
  lemma YearAddsFragment(year: int, page: Option<string>,
                         rating: Option<(string, string)>, genre: Option<seq<string>>)
    ensures var without := GetSearchURL(None, page, rating, genre);
            var at := |SearchBase| + |RatingPart(rating)|;
            at <= |without|
            && GetSearchURL(Some(year), page, rating, genre)
               == without[..at] + YearFragment(year) + without[at..]
  {
    InsertThird(SearchBase, RatingPart(rating), YearFragment(year), SortFragment, PagePart(page), GenrePart(genre));
  }

  /** A page adds exactly its fragment, right after the sort order. */
  lemma PageAddsFragment(year: Option<int>, page: string,
                         rating: Option<(string, string)>, genre: Option<seq<string>>)
    ensures var without := GetSearchURL(year, None, rating, genre);
            var at := |GetSearchURL(year, None, rating, None)|;
            at <= |without|
            && GetSearchURL(year, Some(page), rating, genre)
               == without[..at] + PageFragment(page) + without[at..]
  {
    PageAddsOn(SearchBase, SortFragment, year, page, rating, genre);
  }

  /** A genre selection adds exactly its fragment, at the very end. */
  lemma GenreAddsFragment(year: Option<int>, page: Option<string>,
                          rating: Option<(string, string)>, genre: seq<string>)
    ensures GetSearchURL(year, page, rating, Some(genre))
            == GetSearchURL(year, page, rating, None) + GenreFragment(genre)
  {
    GenreAddsOn(SearchBase, SortFragment, year, page, rating, genre);
  }

  /** The genre names can be read back from the URL's last fragment as long
      as none contains a comma; an empty selection still adds `&genres=`. */
  lemma GenresReadBack(genre: seq<string>)
    requires |genre| >= 1
    requires forall g :: g in genre ==> ',' !in g
    ensures var f := GenreFragment(genre);
            |f| >= 8 && f[..8] == "&genres=" && Split(f[8..], ',') == genre
  {
    var f := GenreFragment(genre);
    assert f[8..] == Join(genre, ',');
    SplitJoin(genre, ',');
  }

  lemma EmptyGenreSelection()
    ensures GenreFragment([]) == "&genres="
  {
  }

  /** A fully specified search URL carries its fragments in the fixed order
      rating, release date, sort, start page, genres, each right after the
      previous one, the genres running to the end of the URL. */
  predicate FragmentsInOrder(url: string, year: int, page: string,
                             rating: (string, string), genre: seq<string>)
  {
    var r := |SearchBase|;
    var y := r + |RatingFragment(rating)|;
    var s := y + |YearFragment(year)|;
    var p := s + |SortFragment|;
    var g := p + |PageFragment(page)|;
    && r < y < s < p < g
    && OccursAt(url, RatingFragment(rating), r)
    && OccursAt(url, YearFragment(year), y)
    && OccursAt(url, SortFragment, s)
    && OccursAt(url, PageFragment(page), p)
    && OccursAt(url, GenreFragment(genre), g)
    && g + |GenreFragment(genre)| == |url|
  }

  lemma FragmentOrder(year: int, page: string, rating: (string, string), genre: seq<string>)
    ensures FragmentsInOrder(GetSearchURL(Some(year), Some(page), Some(rating), Some(genre)),
                             year, page, rating, genre)
  {
    FragmentOrderOn(SearchBase, SortFragment, year, page, rating, genre);
  }

  /** The text between `&&start=` and `&genres=` of a fully specified search
      URL, located from the other arguments alone. */
  function StartArgument(url: string, year: int, rating: (string, string), genre: seq<string>): string
  {
    var from := |SearchBase| + |RatingFragment(rating)| + |YearFragment(year)| + |SortFragment|
                + |StartKey|;
    var to := |url| - |GenreFragment(genre)|;
    if 0 <= from <= to <= |url| then url[from..to] else ""
  }

  /** The page a search URL was built for reads back out of the URL. */
  lemma StartArgumentReadsBack(year: int, page: string, rating: (string, string), genre: seq<string>)
    ensures StartArgument(GetSearchURL(Some(year), Some(page), Some(rating), Some(genre)),
                          year, rating, genre) == page
  {
    var url := GetSearchURL(Some(year), Some(page), Some(rating), Some(genre));
    FragmentOrder(year, page, rating, genre);
    var p := |SearchBase| + |RatingFragment(rating)| + |YearFragment(year)| + |SortFragment|;
    ArgumentAfterPrefix(url, StartKey, page, p);
  }

  /** The argument of an occurrence of `prefix + arg` follows the prefix. */
  lemma ArgumentAfterPrefix(url: string, prefix: string, arg: string, p: nat)
    requires OccursAt(url, prefix + arg, p)
    ensures p + |prefix| + |arg| <= |url| && url[p + |prefix|..p + |prefix| + |arg|] == arg
  {
    assert url[p + |prefix|..p + |prefix| + |arg|] == url[p..p + |prefix| + |arg|][|prefix|..];
  }

  // ---------------------------------------------------------------------
  // Solver helpers: the facts above, restated with the base URL and the sort
  // fragment as plain parameters. Proving them there keeps the two long
  // string constants out of the proofs; the lemmas above instantiate them.
  // ---------------------------------------------------------------------

  lemma StartsWithBaseOn(base: string, sort: string, year: Option<int>, page: Option<string>,
                         rating: Option<(string, string)>, genre: Option<seq<string>>)
    ensures OccursAt(SearchURLOn(base, sort, year, page, rating, genre), base, 0)
  {
    Pieces(base, RatingPart(rating), YearPart(year), sort, PagePart(page), GenrePart(genre));
  }

  lemma NoArgumentsOn(base: string, sort: string)
    ensures SearchURLOn(base, sort, None, None, None, None) == base + sort
  {
    assert base + "" + "" + sort + "" + "" == base + sort;
  }

  lemma RatingAddsOn(base: string, sort: string, year: Option<int>, page: Option<string>,
                     rating: (string, string), genre: Option<seq<string>>)
    ensures var without := SearchURLOn(base, sort, year, page, None, genre);
            |base| <= |without|
            && SearchURLOn(base, sort, year, page, Some(rating), genre)
               == base + RatingFragment(rating) + without[|base|..]
  {
    InsertSecond(base, RatingFragment(rating), YearPart(year), sort, PagePart(page), GenrePart(genre));
    StartsWithBaseOn(base, sort, year, page, None, genre);
  }

  lemma PageAddsOn(base: string, sort: string, year: Option<int>, page: string,
                   rating: Option<(string, string)>, genre: Option<seq<string>>)
    ensures var without := SearchURLOn(base, sort, year, None, rating, genre);
            var at := |SearchURLOn(base, sort, year, None, rating, None)|;
            at <= |without|
            && SearchURLOn(base, sort, year, Some(page), rating, genre)
               == without[..at] + PageFragment(page) + without[at..]
  {
    InsertFifth(base, RatingPart(rating), YearPart(year), sort, PageFragment(page), GenrePart(genre));
    AssembleLength(base, RatingPart(rating), YearPart(year), sort, "", "");
  }

  lemma GenreAddsOn(base: string, sort: string, year: Option<int>, page: Option<string>,
                    rating: Option<(string, string)>, genre: seq<string>)
    ensures SearchURLOn(base, sort, year, page, rating, Some(genre))
            == SearchURLOn(base, sort, year, page, rating, None) + GenreFragment(genre)
  {
    var head := base + RatingPart(rating) + YearPart(year) + sort + PagePart(page);
    assert head + "" == head;
  }

  lemma FragmentOrderOn(base: string, sort: string, year: int, page: string,
                        rating: (string, string), genre: seq<string>)
    requires |sort| > 0
    ensures var url := SearchURLOn(base, sort, Some(year), Some(page), Some(rating), Some(genre));
            var r := |base|;
            var y := r + |RatingFragment(rating)|;
            var s := y + |YearFragment(year)|;
            var p := s + |sort|;
            var g := p + |PageFragment(page)|;
            r < y < s < p < g
            && OccursAt(url, RatingFragment(rating), r)
            && OccursAt(url, YearFragment(year), y)
            && OccursAt(url, sort, s)
            && OccursAt(url, PageFragment(page), p)
            && OccursAt(url, GenreFragment(genre), g)
            && g + |GenreFragment(genre)| == |url|
  {
    Pieces(base, RatingFragment(rating), YearFragment(year), sort,
           PageFragment(page), GenreFragment(genre));
  }

  // ---------------------------------------------------------------------
  // Facts about six concatenated pieces
  // ---------------------------------------------------------------------

  lemma AssembleLength(a: string, b: string, c: string, d: string, e: string, f: string)
    ensures |Assemble(a, b, c, d, e, f)| == |a| + |b| + |c| + |d| + |e| + |f|
  {
  }

  /** Where each of six concatenated pieces lies in the whole. */
  lemma Pieces(a: string, b: string, c: string, d: string, e: string, f: string)
    ensures var u := Assemble(a, b, c, d, e, f);
            var i1, i2, i3 := |a|, |a| + |b|, |a| + |b| + |c|;
            var i4, i5 := i3 + |d|, i3 + |d| + |e|;
            && |u| == i5 + |f|
            && u[..i1] == a && u[i1..i2] == b && u[i2..i3] == c
            && u[i3..i4] == d && u[i4..i5] == e && u[i5..] == f
  {
  }

  lemma FourthOccurs(a: string, b: string, c: string, d: string, e: string, f: string)
    ensures OccursAt(Assemble(a, b, c, d, e, f), d, |a| + |b| + |c|)
  {
    Pieces(a, b, c, d, e, f);
  }

  /** Filling the second piece inserts it right after the first. */
  lemma InsertSecond(a: string, b: string, c: string, d: string, e: string, f: string)
    ensures var w := Assemble(a, "", c, d, e, f);
            |a| <= |w| && Assemble(a, b, c, d, e, f) == w[..|a|] + b + w[|a|..]
  {
    var w, rest := Assemble(a, "", c, d, e, f), c + d + e + f;
    assert w == a + rest;
    assert w[..|a|] == a && w[|a|..] == rest;
    assert Assemble(a, b, c, d, e, f) == a + b + rest;
  }

  /** Filling the third piece inserts it right after the first two. */
  lemma InsertThird(a: string, b: string, c: string, d: string, e: string, f: string)
    ensures var w := Assemble(a, b, "", d, e, f);
            var at := |a| + |b|;
            at <= |w| && Assemble(a, b, c, d, e, f) == w[..at] + c + w[at..]
  {
    var w, head, rest := Assemble(a, b, "", d, e, f), a + b, d + e + f;
    assert w == head + rest;
    assert w[..|head|] == head && w[|head|..] == rest;
    assert Assemble(a, b, c, d, e, f) == head + c + rest;
  }

  /** Filling the fifth piece inserts it right after the first four. */
  lemma InsertFifth(a: string, b: string, c: string, d: string, e: string, f: string)
    ensures var w := Assemble(a, b, c, d, "", f);
            var at := |a| + |b| + |c| + |d|;
            at <= |w| && Assemble(a, b, c, d, e, f) == w[..at] + e + w[at..]
  {
    var w, head := Assemble(a, b, c, d, "", f), a + b + c + d;
    assert w == head + f;
    assert w[..|head|] == head && w[|head|..] == f;
  }
}
