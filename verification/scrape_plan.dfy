/** The scrape branch of the app: which result pages (offsets 1, 51, 101, …)
    are requested for which release years, and the search URL of each page. */
module ScrapePlan {
  import opened Wrappers
  import opened Decimal
  import Utils

  /** The page size of an IMDb search listing, the step between offsets. */
  const PageStep := 50

  /** Python's `range(start, stop, step)` for a positive step. */
  function PyRange(start: int, stop: int, step: nat): (r: seq<int>)
    requires step > 0
    ensures |r| == if start >= stop then 0 else (stop - start - 1) / step + 1
    ensures forall k :: 0 <= k < |r| ==> r[k] == start + k * step
    decreases stop - start
  {
    if start >= stop then []
    else
      var rest := PyRange(start + step, stop, step);
      assert |rest| + 1 == if start >= stop then 0 else (stop - start - 1) / step + 1 by {
        if start + step < stop {
          DivPlusStep(stop - start - step - 1, step);
        }
      }
      assert forall k :: 1 <= k <= |rest| ==> start + step + (k - 1) * step == start + k * step by {
        forall k | 1 <= k <= |rest| ensures start + step + (k - 1) * step == start + k * step {
          assert (k - 1) * step == k * step - step;
        }
      }
      [start] + rest
  }

  lemma DivPlusStep(x: int, step: nat)
    requires x >= 0 && step > 0
    ensures (x + step) / step == x / step + 1
  {
    var y := x + step;
    var q, r := x / step, x % step;
    var q', r' := y / step, y % step;
    var k := q + 1 - q';
    assert k * step == r' - r by {
      assert x == step * q + r;
      assert y == step * q' + r';
      assert step * (q + 1) + r == step * q' + r';
      assert k * step == step * (q + 1) - step * q';
    }
  }

  /** `range(1, no_of_movies, 50)`: the offsets of the result pages. */
  function PageOffsets(noOfMovies: int): seq<int>
  {
    PyRange(1, noOfMovies, PageStep)
  }

  /** `range(movies_year[0], movies_year[1] + 1)`: every year of the slider range. */
  function Years(first: int, last: int): seq<int>
  {
    PyRange(first, last + 1, 1)
  }

  /** The search URLs requested for one year: one per page offset, in order. */
  function UrlsForYear(year: int, noOfMovies: int, rating: (string, string), genre: seq<string>)
    : (urls: seq<string>)
  {
    var pages := PageOffsets(noOfMovies);
    seq(|pages|, k requires 0 <= k < |pages| =>
      Utils.GetSearchURL(Some(year), Some(ShowInt(pages[k])), Some(rating), Some(genre)))
  }

  // ---------------------------------------------------------------------
  // Lemmas
  // ---------------------------------------------------------------------

  /** The offsets are 1, 51, 101, … and all below `no_of_movies`; there are
      none when `no_of_movies <= 1`, and no offset of that form is missed. */
  lemma PageOffsetsShape(noOfMovies: int)
    ensures var pages := PageOffsets(noOfMovies);
            && (noOfMovies <= 1 <==> pages == [])
            && (forall k :: 0 <= k < |pages| ==> pages[k] == 1 + PageStep * k && pages[k] < noOfMovies)
            && (forall k :: 0 <= k < |pages| - 1 ==> pages[k] < pages[k + 1])
            && (forall k: nat :: 1 + PageStep * k < noOfMovies ==> k < |pages|)
  {
    var pages := PageOffsets(noOfMovies);
    forall k: nat | 1 + PageStep * k < noOfMovies ensures k < |pages| {
      assert (noOfMovies - 2) / PageStep >= k;
    }
  }

  /** With the app's slider at its default of 250 movies, five pages are requested. */
  lemma DefaultPageOffsets()
    ensures PageOffsets(250) == [1, 51, 101, 151, 201]
  {
    var pages := PageOffsets(250);
    assert |pages| == 5;
  }

  /** The years run from the first slider value to the last, both included. */
  lemma YearsShape(first: int, last: int)
    ensures var years := Years(first, last);
            && |years| == (if first <= last then last - first + 1 else 0)
            && (forall k :: 0 <= k < |years| ==> years[k] == first + k)
            && (forall y :: first <= y <= last ==> y in years)
  {
    var years := Years(first, last);
    forall y | first <= y <= last ensures y in years {
      assert years[y - first] == y;
    }
  }

  /** One URL is requested per page offset, in order. Each starts with the
      search base, carries the year, rating, page and genre fragments in
      their fixed order, and the page read back out of it is that offset. */
  lemma UrlsForYearShape(year: int, noOfMovies: int, rating: (string, string), genre: seq<string>)
    ensures var pages := PageOffsets(noOfMovies);
            var urls := UrlsForYear(year, noOfMovies, rating, genre);
            && |urls| == |pages|
            && forall k :: 0 <= k < |urls| ==>
                 && Utils.OccursAt(urls[k], Utils.SearchBase, 0)
                 && Utils.FragmentsInOrder(urls[k], year, ShowInt(pages[k]), rating, genre)
                 && Parse(Utils.StartArgument(urls[k], year, rating, genre)) == pages[k]
  {
    var pages := PageOffsets(noOfMovies);
    var urls := UrlsForYear(year, noOfMovies, rating, genre);
    forall k | 0 <= k < |pages|
      ensures && Utils.OccursAt(urls[k], Utils.SearchBase, 0)
              && Utils.FragmentsInOrder(urls[k], year, ShowInt(pages[k]), rating, genre)
              && Parse(Utils.StartArgument(urls[k], year, rating, genre)) == pages[k]
    {
      var page := ShowInt(pages[k]);
      Utils.SearchURLStartsWithBase(Some(year), Some(page), Some(rating), Some(genre));
      Utils.FragmentOrder(year, page, rating, genre);
      Utils.StartArgumentReadsBack(year, page, rating, genre);
      ParseShow(pages[k]);
    }
  }
}
