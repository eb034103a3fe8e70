# IMDb movie recommender: a Dafny model of its pure core

The application scrapes IMDb search listings, builds a bag of words per movie,
and recommends the ten movies whose count vectors are most similar to a
chosen title. This project models the parts of that program that are plain
computations over sequences, strings and integers, and proves what they
promise:

- `recomovi`, the top-ten selection over one row of the similarity matrix
  (module `Recommender`), and `getCosineSim`, the count-vector matrix behind it
  (module `Similarity`);
- the page offsets and year list of the app's scrape branch, and the URLs it
  requests (module `ScrapePlan`);
- the URL builders `getSearchURL`, `getMediaURL` and `getTitleURL` (module `Utils`);
- the range `random_with_N_digits` draws from, the clean-up of a result's
  year label, and the split of a result's credits paragraph into directors and
  stars (module `ScrapeImdb`).

Python's string and integer helpers that these rely on are modelled once:
`str.join`, `str.split`, `str.replace` with an empty replacement, `str.strip`
(module `Text`), and `str(int)`, `int(str)` and `10**n` (module `Decimal`).
Errors the Python code raises become `Failure` values of a `Result`, or
`None` of an `Option` where there is only one way to fail (the range of
`random_with_N_digits`). Absent arguments (`None`) become `Option` values
(module `Wrappers`).

Modelling choices:

- Documents are given already tokenised, as sequences of tokens. The
  similarity matrix applies a caller-supplied `cosine(dot, |u|², |v|²)` to the
  exact integer dot products and squared norms.
- The vocabulary is built in first-occurrence order. `CountVectorizer` sorts
  it alphabetically instead. The lemmas show that every vocabulary listing
  each token once gives the same dot products, so the order does not matter.
- `sort_values(ascending=False)` does not fix the order of equal scores.
  Every property of the selection is therefore proved for any ranking
  (`IsRanking`: a permutation of the row indices with non-increasing scores).
  `Ranking` is one such ranking, an insertion sort that keeps ties in row order.
- A credits paragraph is the list of its children: loose text, a link, or a
  `<span>`.
- Rating bounds are given as the strings `str(float)` renders.

## Model

| member | source | states |
|---|---|---|
| Similarity.Count | streamlit_app.py:40-41 | the count of a token is positive exactly when the document holds it, and never exceeds the document's length |
| Similarity.Vocabulary | streamlit_app.py:40-41 | the fitted vocabulary lists each token once, holds every token of every document, and holds no token that occurs in no document |
| Similarity.CountVector | streamlit_app.py:41 | a document's row has one coordinate per vocabulary entry, and coordinate k counts the k-th vocabulary token in the document |
| Similarity.CountMatrix | streamlit_app.py:41 | the count matrix has one row per document, each as long as the vocabulary |
| Similarity.CosineSim | streamlit_app.py:38-43 | `getCosineSim` fails with an empty vocabulary exactly when no document holds a token, the empty corpus included; otherwise the similarity matrix of N documents is N×N |
| Similarity.EmptyVocabularyIff | streamlit_app.py:40-41 | the fitted vocabulary is empty exactly when every document is |
| Similarity.DotSymmetric | streamlit_app.py:42 | the dot product of two count vectors does not depend on their order |
| Similarity.DotIsOverlap | streamlit_app.py:40-42 | over any vocabulary that lists each token of the first document once, the dot product of two count vectors is the number of token pairs the documents share |
| Similarity.VocabularyOrderIrrelevant | streamlit_app.py:40-41 | two such vocabularies, in any order, give the same dot products, so the alphabetical vocabulary gives the same matrix as the modelled one |
| Similarity.GramIsOverlap | streamlit_app.py:41-42 | entry (i, j) of the dot-product matrix is the number of token pairs documents i and j share |
| Similarity.OverlapSymmetric | streamlit_app.py:42 | the number of shared token pairs is symmetric |
| Similarity.GramSymmetric | streamlit_app.py:42 | the dot-product matrix is symmetric |
| Similarity.SelfDot | streamlit_app.py:41-42 | a document's squared norm is at least its number of tokens, and zero exactly for an empty bag of words |
| Similarity.CosineSimSymmetric | streamlit_app.py:42 | whenever the matrix exists, it is symmetric for every score symmetric in the two norms, as the cosine is |
| Similarity.SelfSimilarity | streamlit_app.py:42 | a non-empty document makes the matrix exist and has self-similarity 1, given a score that rates a vector 1 against itself; an empty document in a corpus with tokens gets the score of a zero vector |
| Recommender.FirstIndexOf | streamlit_app.py:54 | the lookup finds the first row carrying the title, and finds nothing exactly when no row carries it |
| Recommender.Insert | streamlit_app.py:55 | inserting an index into a ranked list adds exactly that index and keeps all indices in range |
| Recommender.InsertKeepsOrder | streamlit_app.py:55 | insertion keeps the scores of a ranked list non-increasing |
| Recommender.SortByScore | streamlit_app.py:55 | ranking the first n rows lists each of 0..n-1 once, with non-increasing scores |
| Recommender.Ranking | streamlit_app.py:55 | the sorted series' index is a ranking of the row: a permutation of its indices with non-increasing scores |
| Recommender.RankingIsPermutation | streamlit_app.py:55 | any ranking has one entry per row, no index twice, and every index once |
| Recommender.RankingIsTopSelection | streamlit_app.py:55-56 | for any ranking, its first entry scores highest, and `iloc[1:11]` gives min(10, N-1) distinct indices, with non-increasing scores, none of them the first entry, that no other left-out index outscores |
| Recommender.RecommendIndices | streamlit_app.py:54-56 | the selection fails exactly for an absent title, is a top selection of the query's row, and drops the query itself when the query's score is strictly highest |
| Recommender.TitlesAt | streamlit_app.py:58-59 | with distinct titles, a row's title is listed exactly when the row is selected, and distinct selected rows give distinct titles |
| Recommender.TitlesAtExclude | streamlit_app.py:58-59 | with no repeated title, a row that was not selected contributes no title |
| Recommender.Recomovi | streamlit_app.py:50-61 | `recomovi` fails exactly for an absent title; otherwise it returns min(10, N-1) titles, the k-th being the title of the k-th selected row, and, when titles are distinct, returns no title twice and leaves the query title out whenever the query's score is strictly highest |
| Recommender.RecomoviCanReturnQuery | streamlit_app.py:55-56 | when the query's row is all zeros, a tie puts an earlier row first, and `recomovi` then recommends the query itself |
| Recommender.Remove | streamlit_app.py:55-56 | removing the query index from a ranking drops exactly its occurrences and keeps every other entry |
| Recommender.RemoveKeepsOrder | streamlit_app.py:55-56 | removing an index keeps a ranked list ranked |
| Recommender.RemoveFromRanking | streamlit_app.py:55-56 | a ranking without the query lists every other row exactly once |
| Recommender.PrefixIsTop | streamlit_app.py:56 | the first min(10, N-1) entries of a ranked list of all other rows are the best rows other than the query |
| Recommender.RemovedRankingIsTop | streamlit_app.py:55-56 | for any ranking, the corrected selection is a top selection among all rows other than the query |
| Recommender.RecommendIndicesExcludingQuery | streamlit_app.py:54-56 | the corrected selection fails exactly for an absent title, and otherwise drops the query row and picks the best rows among the others |
| Recommender.RecomoviExcludingQuery | streamlit_app.py:50-61 | the corrected `recomovi` fails exactly for an absent title; otherwise it returns min(10, N-1) titles of the selected rows, and, when titles are distinct, no title twice and never the query title |
| Recommender.RecomoviExcludingQueryExample | streamlit_app.py:55-56 | on the input where `recomovi` returns the query, the corrected selection returns the other title |
| ScrapePlan.PyRange | streamlit_app.py:188-189 | `range(start, stop, step)` has ceil((stop-start)/step) elements, or none, and its k-th element is start + k·step |
| ScrapePlan.PageOffsetsShape | streamlit_app.py:188 | the page offsets are 1, 51, 101, … below `no_of_movies`, with none missed; there are none exactly when `no_of_movies` ≤ 1 |
| ScrapePlan.DefaultPageOffsets | streamlit_app.py:144-145 | with the movies slider at its default of 250, the pages requested start at 1, 51, 101, 151 and 201 |
| ScrapePlan.YearsShape | streamlit_app.py:185-189 | the years run from the first slider value to the second, both included, in order |
| ScrapePlan.UrlsForYearShape | streamlit_app.py:205-206 | one URL is built per page offset, in order; each starts with the search base, carries the rating, year, sort, page and genre fragments in order, and the page read back out of it parses to that offset |
| Utils.FillEach | utils.py:13-24 | formatting a one-placeholder template over a list of ids gives a list of the same length and order, element k being the template around id k, from which id k reads back |
| Utils.GetMediaURL | utils.py:13-17 | element k is the poster-gallery URL of id k, and the id reads back from it |
| Utils.GetTitleURL | utils.py:20-24 | element k is the title-page URL of id k, and the id reads back from it |
| Utils.FillArgOf | utils.py:6-8 | the id can be read back from a filled URL template |
| Utils.SearchURLStartsWithBase | utils.py:88 | every search URL starts with the base search URL |
| Utils.SearchURLNoArguments | utils.py:86-104 | with every argument `None`, the URL is the base followed by the sort order |
| Utils.SortAlwaysPresent | utils.py:96 | whatever the arguments, the sort order appears right after the base and the rating and year fragments |
| Utils.RatingAddsFragment | utils.py:90-91 | a rating inserts exactly `&user_rating=<lo>,<hi>` right after the base, and changes nothing else |
| Utils.YearAddsFragment | utils.py:93-94 | a year inserts exactly `&release_date=<year>` right after the rating fragment, and changes nothing else |
| Utils.PageAddsFragment | utils.py:98-99 | a page inserts exactly `&&start=<page>` right after the sort order, and changes nothing else |
| Utils.GenreAddsFragment | utils.py:101-102 | a genre selection appends exactly `&genres=` and the names joined by commas |
| Utils.GenresReadBack | utils.py:102 | genre names without commas split back out of the genre fragment |
| Utils.EmptyGenreSelection | utils.py:101-102 | an empty genre selection still adds `&genres=` |
| Utils.FragmentOrder | utils.py:90-102 | with every argument given, the fragments occur in the order rating, release date, sort, start, genres, one after the other, up to the end of the URL |
| Utils.StartArgumentReadsBack | utils.py:98-102 | the text between `&&start=` and `&genres=`, located from the other arguments alone, is the page the URL was built for |
| ScrapeImdb.DigitRange | scrape_imdb.py:26-32 | there is a range exactly for n ≥ 1, and then it is a non-empty range of positive numbers |
| ScrapeImdb.DrawHasNDigits | scrape_imdb.py:27-32 | every number in the drawn range has exactly n decimal digits |
| ScrapeImdb.NDigitsCanBeDrawn | scrape_imdb.py:27-32 | every positive number with n decimal digits lies in the range |
| ScrapeImdb.CleanYear | scrape_imdb.py:112-116 | the cleaned year holds no parenthesis and no space |
| ScrapeImdb.CleanYearNoSpace | scrape_imdb.py:112-116 | a label without a space only loses its parentheses |
| ScrapeImdb.CleanYearSecondField | scrape_imdb.py:114-115 | a label with a space yields the text between its first and second space |
| ScrapeImdb.CleanYearTwoGroups | scrape_imdb.py:112-116 | a label `(a) (b)` with plain groups cleans to `b` |
| ScrapeImdb.CleanYearExample | scrape_imdb.py:112-116 | `(I) (2019)` cleans to `2019` |
| ScrapeImdb.CleanYearIdempotent | scrape_imdb.py:112-116 | cleaning a cleaned year changes nothing |
| ScrapeImdb.FirstAnchor | scrape_imdb.py:151 | the first link of the paragraph is a link with no link before it, and there is none exactly when the paragraph holds no link |
| ScrapeImdb.WalkToSpan | scrape_imdb.py:161-172 | the walk fails exactly when no span follows; otherwise it stops at the first span and has collected the names of the links before it, in order |
| ScrapeImdb.ParseCredits | scrape_imdb.py:150-182 | parsing fails for a paragraph without a link, and fails for a missing label exactly when the first link has no text right before it |
| ScrapeImdb.SingleDirector | scrape_imdb.py:157-159 | with label `Director:`, the first link is the director and the later links, comma-joined, are the stars |
| ScrapeImdb.AnchorsAroundFirst | scrape_imdb.py:157-159 | the first link followed by the later links is every link of the paragraph |
| ScrapeImdb.SeveralDirectors | scrape_imdb.py:161-176 | with label `Directors:` and a span after the first link, the directors are the links before the span and the stars the links after it, both comma-joined |
| ScrapeImdb.SeveralDirectorsCoverLinks | scrape_imdb.py:161-176 | those directors followed by those stars are every link of the paragraph, in page order |
| ScrapeImdb.SeveralDirectorsNeedSpan | scrape_imdb.py:161-172 | with label `Directors:` and no span after the first link, parsing fails |
| ScrapeImdb.NoDirectorLabel | scrape_imdb.py:178-182 | with any other label there is no directors field, and the stars are every link of the paragraph |
| ScrapeImdb.StarsReadBack | scrape_imdb.py:182 | the stars field is empty for no names, and splits back into the names when none holds a comma |
| Text.Split | scrape_imdb.py:115 | `str.split(sep)` gives at least one field, two or more when the separator occurs, no field holding the separator, and only characters of the input |
| Text.JoinSplit | scrape_imdb.py:115 | joining the fields of a split with the separator gives back the string |
| Text.SplitJoin | scrape_imdb.py:182 | splitting a non-empty list of names joined by a separator none of them holds gives back the names |
| Text.RemoveChar | scrape_imdb.py:112-113 | `replace(c, '')` leaves no `c` and never lengthens the string |
| Text.RemoveCharKeeps | scrape_imdb.py:112-113 | `replace(c, '')` keeps every other character |
| Text.RemoveCharAbsent | scrape_imdb.py:112-113 | `replace(c, '')` changes nothing in a string without `c` |
| Text.StripPadded | scrape_imdb.py:157 | `strip()` removes exactly the whitespace padding around a word whose ends are not whitespace |
| Decimal.ParseShow | streamlit_app.py:188 | `int(str(n))` is n for every natural number |
| Decimal.ShowInjective | streamlit_app.py:188 | distinct offsets render as distinct page strings |
| Decimal.ShowLength | scrape_imdb.py:30-31 | a number between 10^(n-1) and 10^n - 1 has n decimal digits |
| Decimal.ShowLengthBounds | scrape_imdb.py:30-31 | a positive number with n decimal digits lies between 10^(n-1) and 10^n - 1 |

## Left out

- `omdb.py` is not part of this model: it is one HTTP request to an external service and a secrets lookup.
- Asynchronous fetching and gathering of result pages, `time.sleep`, and the `random.randint` draw are I/O, timing and randomness. Only the range of the draw is modelled.
- BeautifulSoup parsing and tag lookups (`parse`, the field lookups in `parse_search_page`, `getIMDbPosterLink`, `getIMDbMediaLink`) are left out. Only the credit split is modelled, over the children of the credits paragraph.
- `like` is a wrapper around Python's regular expressions.
- CountVectorizer's tokenisation and lowercasing are left out. Documents are given as token sequences.
- Streamlit widgets, `generate_grid`, `convert_df`, `get_table_download_link`, CSV reading and writing, the `/tmp` directory and `delete` are user interface and file I/O.
- `sc.get_keywords` is not part of this model: its definition is not among the repository's files, so keyword extraction and bag-of-words building are not modelled.
- Similarity.CosineSim: the square root and the division of the cosine are a caller-supplied function of the exact integer dot product and squared norms, because floating-point arithmetic is not modelled. Only properties that hold for any such function, or for any symmetric one, are proved.
- Recommender.Recomovi: leaves the query out only when its score is strictly highest and titles are distinct. With ties, pandas may rank another row first, and the code promises nothing more (see Findings).
- Recommender.Ranking: is one ranking among those `sort_values` may produce. Properties of the selection are proved for every ranking instead.
- Utils.GetSearchURL: rating bounds are taken as already-rendered strings, because `str(float)` is not modelled. The page is a string at the only call site, so `str(page)` is the identity there.
- ScrapeImdb.ParseCredits: the paragraph is its list of direct children. `find('a')` and `find_all('a')` also search nested tags, and the walk reads the text of any tag other than a span; both agree with the model when the links are direct children and the only tags are links and spans.

## Findings

| source | as written | input that shows it | evidently intended | confidence | as-written member | corrected member |
|---|---|---|---|---|---|---|
| streamlit_app.py:55-56 | `iloc[1:11]` drops whichever row sorts first, assuming it is the query's own row | titles `["A", "B"]`, similarity rows `[[1.0, 0.0], [0.0, 0.0]]`, query `"B"`: B's bag of words holds no token the vectorizer keeps, so its row is all zeros; a descending sort that keeps tied rows in index order puts row A first, and the result is `["B"]` | leave out the query row itself and return the best ten other rows | medium, not executed | Recommender.RecomoviCanReturnQuery | Recommender.RecomoviExcludingQuery |

## Why the exclusion is the intended behaviour

- `recomovi` names its slice `top_10_indices` and starts it at position 1 (streamlit_app.py:56). Skipping exactly one entry only makes sense if that entry is the query's own row, which scores highest against itself.
- The title picker offers the titles with the help text "Select a movie to get similar suggestions" (streamlit_app.py:250). Suggesting the selected movie back is not a similar suggestion.
- An unknown title makes `.index[0]` raise an `IndexError` (streamlit_app.py:54). The model returns `Failure(TitleNotFound)` in that case, in both the as-written and the corrected selection.
