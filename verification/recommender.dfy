/** `recomovi`: find the query's row by title, rank that row's scores from
    highest to lowest, drop the first entry of the ranking and return the
    titles at the next ten positions. pandas' `sort_values` does not promise
    any order among equal scores, so the properties below hold for every
    ranking (`IsRanking`); `Ranking` is one concrete witness. */
module Recommender {
  import opened Wrappers
  import Similarity

  /** How many titles a recommendation lists: `iloc[1:11]`. */
  const TopN := 10

  datatype RecommendError = TitleNotFound

  /** What the ranking kept back (`dropped`) and the recommended row indices. */
  datatype Selection = Selection(dropped: nat, picks: seq<nat>)

  /** `indices[indices == title].index[0]`: the first row with the title. */
  function FirstIndexOf(titles: seq<string>, title: string): (r: Option<nat>)
    ensures r.Some? ==> r.value < |titles| && titles[r.value] == title
    ensures r.Some? ==> forall j :: 0 <= j < r.value ==> titles[j] != title
    ensures r.None? <==> title !in titles
  {
    if |titles| == 0 then None
    else if titles[0] == title then Some(0)
    else match FirstIndexOf(titles[1..], title)
      case None => None
      case Some(i) => Some(i + 1)
  }

  /** The row indices `0, 1, …, n - 1`. */
  function Range(n: nat): (r: seq<nat>)
    ensures |r| == n && forall x: nat :: x in r <==> x < n
  {
    var r := seq(n, i => i);
    assert forall x: nat :: x < n ==> x in r by {
      forall x: nat | x < n ensures x in r {
        assert r[x] == x;
      }
    }
    assert forall x: nat :: x in r ==> x < n by {
      forall x: nat | x in r ensures x < n {
        var k :| 0 <= k < |r| && r[k] == x;
      }
    }
    r
  }

  predicate InBounds(order: seq<nat>, n: nat)
  {
    forall k :: 0 <= k < |order| ==> order[k] < n
  }

  predicate NonIncreasing(row: seq<real>, order: seq<nat>)
    requires InBounds(order, |row|)
  {
    forall a, b :: 0 <= a < b < |order| ==> row[order[a]] >= row[order[b]]
  }

  predicate NoRepeats(s: seq<nat>)
  {
    forall a, b :: 0 <= a < b < |s| ==> s[a] != s[b]
  }

  /** `order` lists every row index once, from highest score to lowest. */
  predicate IsRanking(row: seq<real>, order: seq<nat>)
  {
    && InBounds(order, |row|)
    && multiset(order) == multiset(Range(|row|))
    && NonIncreasing(row, order)
  }

  /** `picks` are distinct valid indices other than `dropped`, listed from
      highest score to lowest, `TopN` of them or all the others if fewer, and
      no index left out (other than `dropped`) scores above any of them. */
  predicate TopAmongOthers(row: seq<real>, dropped: nat, picks: seq<nat>)
  {
    && dropped < |row|
    && |picks| == Min(TopN, |row| - 1)
    && InBounds(picks, |row|)
    && NoRepeats(picks)
    && dropped !in picks
    && NonIncreasing(row, picks)
    && (forall j, k :: 0 <= j < |row| && j != dropped && j !in picks && 0 <= k < |picks|
          ==> row[j] <= row[picks[k]])
  }

  /** What `recomovi` selects: the top entry is dropped, and the picks are the
      best `TopN` of the rest. */
  predicate IsTopSelection(row: seq<real>, s: Selection)
  {
    && TopAmongOthers(row, s.dropped, s.picks)
    && (forall j :: 0 <= j < |row| ==> row[j] <= row[s.dropped])
  }

  /** Row `q` scores strictly higher than every other row. */
  predicate StrictlyBest(row: seq<real>, q: nat)
  {
    q < |row| && forall j :: 0 <= j < |row| && j != q ==> row[q] > row[j]
  }

  // ---------------------------------------------------------------------
  // Ranking a row: insertion sort on row indices, highest score first
  // ---------------------------------------------------------------------

  /** Inserts index `x` after every index scoring at least as high. */
  function Insert(row: seq<real>, x: nat, order: seq<nat>): (r: seq<nat>)
    requires x < |row| && InBounds(order, |row|)
    ensures multiset(r) == multiset(order) + multiset{x}
    ensures |r| == |order| + 1
    ensures forall k :: 0 <= k < |r| ==> r[k] == x || r[k] in order
    ensures InBounds(r, |row|)
  {
    if |order| == 0 then [x]
    else if row[order[0]] < row[x] then [x] + order
    else
      assert [order[0]] + order[1..] == order;
      [order[0]] + Insert(row, x, order[1..])
  }

  lemma {:induction false} InsertKeepsOrder(row: seq<real>, x: nat, order: seq<nat>)
    requires x < |row| && InBounds(order, |row|) && NonIncreasing(row, order)
    ensures NonIncreasing(row, Insert(row, x, order))
  {
    if |order| > 0 && row[order[0]] >= row[x] {
      var tail := order[1..];
      InsertKeepsOrder(row, x, tail);
      var rest := Insert(row, x, tail);
      forall k | 0 <= k < |rest| ensures row[order[0]] >= row[rest[k]] {
        if rest[k] != x {
          var m :| 0 <= m < |tail| && tail[m] == rest[k];
          assert order[m + 1] == rest[k];
        }
      }
      ConsKeepsOrder(row, order[0], rest);
    } else if |order| > 0 {
      ConsKeepsOrder(row, x, order);
    }
  }

  /** Putting in front an index that scores at least as high as every index
      of an ordered list keeps it ordered. */
  lemma ConsKeepsOrder(row: seq<real>, h: nat, rest: seq<nat>)
    requires h < |row| && InBounds(rest, |row|) && NonIncreasing(row, rest)
    requires forall k :: 0 <= k < |rest| ==> row[h] >= row[rest[k]]
    ensures InBounds([h] + rest, |row|) && NonIncreasing(row, [h] + rest)
  {
    var s := [h] + rest;
    forall a, b | 0 <= a < b < |s| ensures row[s[a]] >= row[s[b]] {
      assert s[b] == rest[b - 1];
      if a > 0 { assert s[a] == rest[a - 1]; }
    }
  }

  /** The first `n` row indices, ranked. */
  function SortByScore(row: seq<real>, n: nat): (r: seq<nat>)
    requires n <= |row|
    ensures multiset(r) == multiset(Range(n))
    ensures InBounds(r, |row|) && NonIncreasing(row, r)
  {
    if n == 0 then []
    else
      RangeSnoc(n - 1);
      var sorted := SortByScore(row, n - 1);
      InsertKeepsOrder(row, n - 1, sorted);
      Insert(row, n - 1, sorted)
  }

  /** `pd.Series(row).sort_values(ascending=False).index`, with ties kept in
      row order (one of the orders pandas may produce). */
  function Ranking(row: seq<real>): (order: seq<nat>)
    ensures IsRanking(row, order)
  {
    SortByScore(row, |row|)
  }

  /** `iloc[1:11]` of a ranking. */
  function Picks(order: seq<nat>): seq<nat>
    requires |order| >= 1
  {
    order[1..Min(TopN + 1, |order|)]
  }

  /** The selection `recomovi` makes for `title`: the query row is the first
      row with that title, an absent title is an error. */
  function RecommendIndices(titles: seq<string>, sim: seq<seq<real>>, title: string)
    : (r: Result<Selection, RecommendError>)
    requires Similarity.IsSquare(sim, |titles|)
    ensures r.Failure? <==> title !in titles
    ensures r.Success? ==> IsTopSelection(sim[FirstIndexOf(titles, title).value], r.value)
    ensures r.Success? ==>
      var q := FirstIndexOf(titles, title).value;
      StrictlyBest(sim[q], q) ==> r.value.dropped == q && q !in r.value.picks
  {
    match FirstIndexOf(titles, title)
    case None => Failure(TitleNotFound)
    case Some(q) =>
      var order := Ranking(sim[q]);
      RankingIsTopSelection(sim[q], order);
      Success(Selection(order[0], Picks(order)))
  }

  /** `recomovi(title, cosine_sim, keywords, indices)`. */
  function Recomovi(titles: seq<string>, sim: seq<seq<real>>, title: string)
    : (r: Result<seq<string>, RecommendError>)
    requires Similarity.IsSquare(sim, |titles|)
    ensures r.Failure? <==> title !in titles
    ensures r.Success? ==> |r.value| == Min(TopN, |titles| - 1)
    ensures r.Success? ==>
      var picks := RecommendIndices(titles, sim, title).value.picks;
      forall k :: 0 <= k < |r.value| ==> r.value[k] == titles[picks[k]]
    ensures r.Success? && NoRepeatedTitle(titles) ==>
      var q := FirstIndexOf(titles, title).value;
      StrictlyBest(sim[q], q) ==> title !in r.value
    ensures r.Success? && NoRepeatedTitle(titles) ==> NoRepeatedTitle(r.value)
  {
    match RecommendIndices(titles, sim, title)
    case Failure(e) => Failure(e)
    case Success(s) =>
      var q := FirstIndexOf(titles, title).value;
      var r := TitlesAt(titles, s.picks);
      assert NoRepeatedTitle(titles) && StrictlyBest(sim[q], q) ==> title !in r by {
        if NoRepeatedTitle(titles) && StrictlyBest(sim[q], q) {
          TitlesAtExclude(titles, s.picks, q);
        }
      }
      Success(r)
  }

  /** The titles of the selected rows, in selection order. With distinct
      titles, a row's title is listed exactly when the row is selected, and
      distinct rows give distinct titles. */
  function TitlesAt(titles: seq<string>, picks: seq<nat>): (r: seq<string>)
    requires InBounds(picks, |titles|)
    ensures |r| == |picks| && forall k :: 0 <= k < |picks| ==> r[k] == titles[picks[k]]
    ensures NoRepeatedTitle(titles) ==>
      forall j :: 0 <= j < |titles| ==> (titles[j] in r <==> j in picks)
    ensures NoRepeatedTitle(titles) && NoRepeats(picks) ==> NoRepeatedTitle(r)
  {
    seq(|picks|, k requires 0 <= k < |picks| => titles[picks[k]])
  }

  predicate NoRepeatedTitle(titles: seq<string>)
  {
    forall a, b :: 0 <= a < b < |titles| ==> titles[a] != titles[b]
  }

  /** With distinct titles, leaving row `q` out leaves its title out. */
  lemma TitlesAtExclude(titles: seq<string>, picks: seq<nat>, q: nat)
    requires InBounds(picks, |titles|) && q < |titles|
    requires NoRepeatedTitle(titles) && q !in picks
    ensures titles[q] !in TitlesAt(titles, picks)
  {
    forall k | 0 <= k < |picks| ensures TitlesAt(titles, picks)[k] != titles[q] {
      assert picks[k] != q;
    }
  }

  // ---------------------------------------------------------------------
  // Corrected selection: exclude the query row itself
  // ---------------------------------------------------------------------

  /** The ranking without index `q`. */
  function Remove(s: seq<nat>, q: nat): (r: seq<nat>)
    ensures |r| + multiset(s)[q] == |s|
    ensures multiset(r) == multiset(s)[q := 0]
    ensures forall k :: 0 <= k < |r| ==> r[k] in s
  {
    if |s| == 0 then []
    else
      assert s == [s[0]] + s[1..];
      if s[0] == q then Remove(s[1..], q) else [s[0]] + Remove(s[1..], q)
  }

  /** The selection with the query row left out of the ranking, rather than
      whatever ranks first. */
  function RecommendIndicesExcludingQuery(titles: seq<string>, sim: seq<seq<real>>, title: string)
    : (r: Result<Selection, RecommendError>)
    requires Similarity.IsSquare(sim, |titles|)
    ensures r.Failure? <==> title !in titles
    ensures r.Success? ==>
      var q := FirstIndexOf(titles, title).value;
      r.value.dropped == q && TopAmongOthers(sim[q], q, r.value.picks)
  {
    match FirstIndexOf(titles, title)
    case None => Failure(TitleNotFound)
    case Some(q) =>
      var order := Ranking(sim[q]);
      var rest := Remove(order, q);
      var picks := rest[..Min(TopN, |rest|)];
      RemovedRankingIsTop(sim[q], order, q);
      Success(Selection(q, picks))
  }

  /** `recomovi` as evidently intended: the titles of the ten best-scoring
      rows other than the query row. */
  function RecomoviExcludingQuery(titles: seq<string>, sim: seq<seq<real>>, title: string)
    : (r: Result<seq<string>, RecommendError>)
    requires Similarity.IsSquare(sim, |titles|)
    ensures r.Failure? <==> title !in titles
    ensures r.Success? ==> |r.value| == Min(TopN, |titles| - 1)
    ensures r.Success? ==>
      var picks := RecommendIndicesExcludingQuery(titles, sim, title).value.picks;
      forall k :: 0 <= k < |r.value| ==> r.value[k] == titles[picks[k]]
    ensures r.Success? && NoRepeatedTitle(titles) ==> title !in r.value
    ensures r.Success? && NoRepeatedTitle(titles) ==> NoRepeatedTitle(r.value)
  {
    match RecommendIndicesExcludingQuery(titles, sim, title)
    case Failure(e) => Failure(e)
    case Success(s) =>
      if NoRepeatedTitle(titles) then
        TitlesAtExclude(titles, s.picks, s.dropped);
        Success(TitlesAt(titles, s.picks))
      else Success(TitlesAt(titles, s.picks))
  }

  // ---------------------------------------------------------------------
  // Lemmas
  // ---------------------------------------------------------------------

  lemma RangeSnoc(m: nat)
    ensures multiset(Range(m + 1)) == multiset(Range(m)) + multiset{m}
  {
    assert Range(m + 1) == Range(m) + [m];
  }

  lemma {:induction false} RangeCount(n: nat, x: nat)
    ensures multiset(Range(n))[x] == if x < n then 1 else 0
  {
    if n > 0 {
      assert Range(n) == Range(n - 1) + [n - 1];
      RangeCount(n - 1, x);
    }
  }

  lemma {:induction false} NoRepeatsFromMultiset(s: seq<nat>)
    requires forall x :: multiset(s)[x] <= 1
    ensures NoRepeats(s)
  {
    forall a, b | 0 <= a < b < |s|
      ensures s[a] != s[b]
    {
      assert s == s[..b] + s[b..];
      assert s[b..][0] == s[b];
      assert multiset(s)[s[b]] == multiset(s[..b])[s[b]] + multiset(s[b..])[s[b]];
      assert multiset(s[..b])[s[b]] == 0;
      assert s[b] !in s[..b];
      assert s[..b][a] == s[a];
    }
  }

  /** A ranking is a permutation of the row indices. */
  lemma RankingIsPermutation(row: seq<real>, order: seq<nat>)
    requires IsRanking(row, order)
    ensures |order| == |row|
    ensures NoRepeats(order)
    ensures forall j :: 0 <= j < |row| ==> j in order
  {
    assert |order| == |multiset(order)| == |multiset(Range(|row|))| == |row|;
    forall x ensures multiset(order)[x] <= 1 {
      if x >= 0 { RangeCount(|row|, x); }
    }
    NoRepeatsFromMultiset(order);
    forall j | 0 <= j < |row| ensures j in order {
      RangeCount(|row|, j);
      assert j in multiset(order);
    }
  }

  /** Every ranking yields the selection `recomovi` promises, whatever it
      does with ties. */
  lemma RankingIsTopSelection(row: seq<real>, order: seq<nat>)
    requires IsRanking(row, order) && |row| >= 1
    ensures |order| >= 1
    ensures IsTopSelection(row, Selection(order[0], Picks(order)))
  {
    RankingHead(row, order);
    RankingTail(row, order);
    PrefixIsTop(row, order[0], order[1..]);
    assert Picks(order) == order[1..][..Min(TopN, |order| - 1)];
  }

  /** The first entry of a ranking scores highest. */
  lemma RankingHead(row: seq<real>, order: seq<nat>)
    requires IsRanking(row, order) && |row| >= 1
    ensures |order| == |row| && forall j :: 0 <= j < |row| ==> row[j] <= row[order[0]]
  {
    RankingIsPermutation(row, order);
    forall j | 0 <= j < |row| ensures row[j] <= row[order[0]] {
      assert j in order;
      var m :| 0 <= m < |order| && order[m] == j;
    }
  }

  /** A ranking after its first entry lists every other row index once, in order. */
  lemma RankingTail(row: seq<real>, order: seq<nat>)
    requires IsRanking(row, order) && |row| >= 1
    ensures |order| == |row|
    ensures var rest := order[1..];
            && |rest| == |row| - 1 && InBounds(rest, |row|) && NonIncreasing(row, rest)
            && NoRepeats(rest) && order[0] !in rest
            && forall j :: 0 <= j < |row| && j != order[0] ==> j in rest
  {
    RankingIsPermutation(row, order);
    var rest := order[1..];
    forall j | 0 <= j < |row| && j != order[0] ensures j in rest {
      assert j in order;
      var m :| 0 <= m < |order| && order[m] == j;
      assert rest[m - 1] == j;
    }
    forall a, b | 0 <= a < b < |rest| ensures rest[a] != rest[b] && row[rest[a]] >= row[rest[b]] {
      assert rest[a] == order[a + 1] && rest[b] == order[b + 1];
    }
    forall m | 0 <= m < |rest| ensures rest[m] != order[0] {
      assert rest[m] == order[m + 1];
    }
  }

  lemma {:induction false} RemoveKeepsOrder(row: seq<real>, s: seq<nat>, q: nat)
    requires InBounds(s, |row|) && NonIncreasing(row, s)
    ensures InBounds(Remove(s, q), |row|) && NonIncreasing(row, Remove(s, q))
  {
    if |s| > 0 {
      var tail := s[1..];
      assert InBounds(tail, |row|) && NonIncreasing(row, tail);
      RemoveKeepsOrder(row, tail, q);
      var rest := Remove(tail, q);
      if s[0] != q {
        forall k | 0 <= k < |rest| ensures row[s[0]] >= row[rest[k]] {
          var m :| 0 <= m < |tail| && tail[m] == rest[k];
          assert s[m + 1] == rest[k];
        }
        ConsKeepsOrder(row, s[0], rest);
      }
    }
  }

  /** Removing `q` from a ranking lists every other row index exactly once. */
  lemma RemoveFromRanking(row: seq<real>, order: seq<nat>, q: nat)
    requires IsRanking(row, order) && q < |row|
    ensures var rest := Remove(order, q);
            |rest| == |row| - 1 && NoRepeats(rest) && q !in rest
            && forall j :: 0 <= j < |row| && j != q ==> j in rest
  {
    var rest := Remove(order, q);
    RangeCount(|row|, q);
    forall x ensures multiset(rest)[x] <= 1 {
      if x >= 0 { RangeCount(|row|, x); }
    }
    NoRepeatsFromMultiset(rest);
    assert q !in multiset(rest);
    forall j | 0 <= j < |row| && j != q ensures j in rest {
      RangeCount(|row|, j);
      assert j in multiset(rest);
    }
  }

  /** Leaving the query out of any ranking and keeping the first `TopN`
      yields the best `TopN` rows other than the query. */
  lemma RemovedRankingIsTop(row: seq<real>, order: seq<nat>, q: nat)
    requires IsRanking(row, order) && q < |row|
    ensures var rest := Remove(order, q);
            TopAmongOthers(row, q, rest[..Min(TopN, |rest|)])
  {
    RemoveKeepsOrder(row, order, q);
    RemoveFromRanking(row, order, q);
    PrefixIsTop(row, q, Remove(order, q));
  }

  /** The first `TopN` entries of an ordered list of every row index but
      `q` are the best `TopN` rows other than `q`. */
  lemma PrefixIsTop(row: seq<real>, q: nat, rest: seq<nat>)
    requires q < |row| && |rest| == |row| - 1
    requires InBounds(rest, |row|) && NonIncreasing(row, rest) && NoRepeats(rest)
    requires q !in rest && forall j :: 0 <= j < |row| && j != q ==> j in rest
    ensures TopAmongOthers(row, q, rest[..Min(TopN, |rest|)])
  {
    var n := Min(TopN, |rest|);
    var picks := rest[..n];
    assert forall k :: 0 <= k < n ==> picks[k] == rest[k];
    forall m | 0 <= m < n ensures picks[m] != q {
      assert picks[m] == rest[m];
    }
    forall j, k | 0 <= j < |row| && j != q && j !in picks && 0 <= k < |picks|
      ensures row[j] <= row[picks[k]]
    {
      assert j in rest;
      var m :| 0 <= m < |rest| && rest[m] == j;
      assert m >= n;
    }
  }

  /** The source's selection can recommend the query itself: when the
      query's bag of words is empty its row is all zeros, and the ranking
      can put any row first. */
  lemma RecomoviCanReturnQuery()
    ensures Recomovi(["A", "B"], [[1.0, 0.0], [0.0, 0.0]], "B") == Success(["B"])
  {
    var titles := ["A", "B"];
    var sim := [[1.0, 0.0], [0.0, 0.0]];
    ExampleLookup();
    ExampleRanking();
    assert sim[1] == [0.0, 0.0];
    assert Picks([0, 1]) == [1];
    assert RecommendIndices(titles, sim, "B") == Success(Selection(0, [1]));
    assert TitlesAt(titles, [1]) == ["B"];
  }

  /** The corrected selection leaves the query out on the same input. */
  lemma RecomoviExcludingQueryExample()
    ensures RecomoviExcludingQuery(["A", "B"], [[1.0, 0.0], [0.0, 0.0]], "B") == Success(["A"])
  {
    var titles := ["A", "B"];
    var sim := [[1.0, 0.0], [0.0, 0.0]];
    ExampleLookup();
    ExampleRanking();
    assert sim[1] == [0.0, 0.0];
    assert Remove([0, 1], 1) == [0] by {
      assert [0, 1][1..] == [1];
      assert Remove([1], 1) == [];
    }
    assert RecommendIndicesExcludingQuery(titles, sim, "B") == Success(Selection(1, [0]));
    assert TitlesAt(titles, [0]) == ["A"];
  }

  lemma ExampleLookup()
    ensures FirstIndexOf(["A", "B"], "B") == Some(1)
  {
    assert ["A", "B"][1..] == ["B"];
  }

  lemma ExampleRanking()
    ensures Ranking([0.0, 0.0]) == [0, 1]
  {
    var row := [0.0, 0.0];
    assert SortByScore(row, 1) == [0];
    assert Insert(row, 1, [0]) == [0, 1];
  }
}
