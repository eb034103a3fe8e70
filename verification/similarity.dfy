/** `getCosineSim`: every bag of words becomes a term-count vector over one
    vocabulary shared by the whole corpus, and every pair of vectors gets a
    cosine similarity. Documents are given already tokenised. The integer
    dot products are modelled exactly; the square root and division that
    turn them into a cosine are a parameter `cosine(dot, |u|^2, |v|^2)`. */
module Similarity {
  import opened Wrappers

  type Token = string
  type Document = seq<Token>

  /** How often `w` occurs in `d`. */
  function Count(d: Document, w: Token): (n: nat)
    ensures n > 0 <==> w in d
    ensures n <= |d|
  {
    if |d| == 0 then 0
    else (if d[0] == w then 1 else 0) + Count(d[1..], w)
  }

  predicate Distinct(s: seq<Token>)
  {
    forall i, j :: 0 <= i < j < |s| ==> s[i] != s[j]
  }

  /** Every token of `d` has a coordinate in `vocab`. */
  predicate Covers(vocab: seq<Token>, d: Document)
  {
    forall t :: t in d ==> t in vocab
  }

  /** Appends the tokens of `d` not seen yet, in order of first occurrence. */
  function AddTokens(vocab: seq<Token>, d: Document): (r: seq<Token>)
    requires Distinct(vocab)
    ensures Distinct(r)
    ensures forall t :: t in r <==> t in vocab || t in d
    decreases |d|
  {
    if |d| == 0 then vocab
    else if d[0] in vocab then AddTokens(vocab, d[1..])
    else AddTokens(vocab + [d[0]], d[1..])
  }

  /** The vocabulary of a corpus: each token occurring in some document, once. */
  function Vocabulary(docs: seq<Document>): (vocab: seq<Token>)
    ensures Distinct(vocab)
    ensures forall i :: 0 <= i < |docs| ==> Covers(vocab, docs[i])
    ensures forall t :: t in vocab ==> exists i :: 0 <= i < |docs| && t in docs[i]
  {
    if |docs| == 0 then []
    else
      var last := |docs| - 1;
      var r := AddTokens(Vocabulary(docs[..last]), docs[last]);
      assert forall i :: 0 <= i < last ==> docs[..last][i] == docs[i];
      r
  }

  /** The term-count vector of `d`: coordinate `k` counts `vocab[k]`. */
  function CountVector(vocab: seq<Token>, d: Document): (v: seq<nat>)
    ensures |v| == |vocab|
    ensures forall k :: 0 <= k < |vocab| ==> v[k] == Count(d, vocab[k])
  {
    if |vocab| == 0 then []
    else [Count(d, vocab[0])] + CountVector(vocab[1..], d)
  }

  function Dot(u: seq<nat>, v: seq<nat>): nat
    requires |u| == |v|
  {
    if |u| == 0 then 0 else u[0] * v[0] + Dot(u[1..], v[1..])
  }

  /** `CountVectorizer().fit_transform(docs)`: one count vector per document. */
  function CountMatrix(docs: seq<Document>): (rows: seq<seq<nat>>)
    ensures |rows| == |docs|
    ensures forall i :: 0 <= i < |docs| ==> |rows[i]| == |Vocabulary(docs)|
  {
    var vocab := Vocabulary(docs);
    seq(|docs|, i requires 0 <= i < |docs| => CountVector(vocab, docs[i]))
  }

  /** The pairwise dot products of the count vectors. */
  function Gram(docs: seq<Document>): (g: seq<seq<nat>>)
    ensures |g| == |docs|
    ensures forall i :: 0 <= i < |docs| ==> |g[i]| == |docs|
  {
    var rows := CountMatrix(docs);
    seq(|docs|, i requires 0 <= i < |docs| =>
      seq(|docs|, j requires 0 <= j < |docs| => Dot(rows[i], rows[j])))
  }

  predicate IsSquare<T>(m: seq<seq<T>>, n: nat)
  {
    |m| == n && forall i :: 0 <= i < n ==> |m[i]| == n
  }

  /** `fit_transform` refuses a corpus without a single token. */
  datatype SimilarityError = EmptyVocabulary

  /** `getCosineSim`: entry `(i, j)` is `cosine` applied to the dot product of
      documents `i` and `j` and to their squared norms. Fitting the counts
      fails when no document holds a token, the empty corpus included. */
  function CosineSim(docs: seq<Document>, cosine: (nat, nat, nat) -> real)
    : (r: Result<seq<seq<real>>, SimilarityError>)
    ensures r.Failure? <==> forall i :: 0 <= i < |docs| ==> docs[i] == []
    ensures r.Success? ==> IsSquare(r.value, |docs|)
  {
    if Vocabulary(docs) == [] then
      EmptyVocabularyIff(docs);
      Failure(EmptyVocabulary)
    else
      EmptyVocabularyIff(docs);
      var g := Gram(docs);
      Success(seq(|docs|, i requires 0 <= i < |docs| =>
        seq(|docs|, j requires 0 <= j < |docs| => cosine(g[i][j], g[i][i], g[j][j]))))
  }

  /** The vocabulary is empty exactly when every document is. */
  lemma EmptyVocabularyIff(docs: seq<Document>)
    ensures Vocabulary(docs) == [] <==> forall i :: 0 <= i < |docs| ==> docs[i] == []
  {
    var vocab := Vocabulary(docs);
    if vocab != [] {
      var i :| 0 <= i < |docs| && vocab[0] in docs[i];
      assert docs[i] != [];
    }
    forall i | 0 <= i < |docs| && docs[i] != [] ensures vocab != [] {
      assert docs[i][0] in docs[i];
      assert Covers(vocab, docs[i]);
      assert docs[i][0] in vocab;
    }
  }

  /** The number of token pairs the two documents share: for each token
      occurrence in `u`, how often it occurs in `v`. Depends on no vocabulary. */
  function Overlap(u: Document, v: Document): nat
  {
    if |u| == 0 then 0 else Count(v, u[0]) + Overlap(u[1..], v)
  }

  // ---------------------------------------------------------------------
  // Lemmas
  // ---------------------------------------------------------------------

  lemma {:induction false} DotSymmetric(u: seq<nat>, v: seq<nat>)
    requires |u| == |v|
    ensures Dot(u, v) == Dot(v, u)
  {
    if |u| > 0 {
      DotSymmetric(u[1..], v[1..]);
    }
  }

  /** The count vector of the empty document is zero. */
  lemma {:induction false} DotEmpty(vocab: seq<Token>, v: Document)
    ensures Dot(CountVector(vocab, []), CountVector(vocab, v)) == 0
  {
    if |vocab| > 0 {
      DotEmpty(vocab[1..], v);
    }
  }

  /** The contribution of one occurrence of `t` to a dot product over `vocab`. */
  function Pick(vocab: seq<Token>, t: Token, v: Document): nat
  {
    if |vocab| == 0 then 0
    else (if vocab[0] == t then Count(v, t) else 0) + Pick(vocab[1..], t, v)
  }

  lemma {:induction false} PickAbsent(vocab: seq<Token>, t: Token, v: Document)
    requires t !in vocab
    ensures Pick(vocab, t, v) == 0
  {
    if |vocab| > 0 {
      PickAbsent(vocab[1..], t, v);
    }
  }

  lemma {:induction false} PickPresent(vocab: seq<Token>, t: Token, v: Document)
    requires Distinct(vocab) && t in vocab
    ensures Pick(vocab, t, v) == Count(v, t)
  {
    if vocab[0] == t {
      assert t !in vocab[1..];
      PickAbsent(vocab[1..], t, v);
    } else {
      PickPresent(vocab[1..], t, v);
    }
  }

  /** Removing the first token of `u` removes exactly its `Pick` from the dot product. */
  lemma {:induction false} DotDropFirst(vocab: seq<Token>, u: Document, v: Document)
    requires |u| > 0
    ensures Dot(CountVector(vocab, u), CountVector(vocab, v))
            == Dot(CountVector(vocab, u[1..]), CountVector(vocab, v)) + Pick(vocab, u[0], v)
  {
    if |vocab| > 0 {
      var w, tail := vocab[0], vocab[1..];
      DotDropFirst(tail, u, v);
      var cu, cr, cv := CountVector(vocab, u), CountVector(vocab, u[1..]), CountVector(vocab, v);
      assert cu == [Count(u, w)] + CountVector(tail, u);
      assert cr == [Count(u[1..], w)] + CountVector(tail, u[1..]);
      assert cv == [Count(v, w)] + CountVector(tail, v);
      var hit := u[0] == w;
      assert Count(u, w) == Count(u[1..], w) + (if hit then 1 else 0);
      ScaleCount(Count(u[1..], w), Count(v, w), hit);
    }
  }

  lemma ScaleCount(a: nat, b: nat, hit: bool)
    ensures (a + (if hit then 1 else 0)) * b == a * b + (if hit then b else 0)
  {
  }

  /** The dot product of two count vectors is their overlap, whatever the
      vocabulary, as long as it lists every token of the first document once.
      In particular the vocabulary's order is irrelevant: the alphabetical
      vocabulary `CountVectorizer` builds gives the same numbers. */
  lemma {:induction false} DotIsOverlap(vocab: seq<Token>, u: Document, v: Document)
    requires Distinct(vocab) && Covers(vocab, u)
    ensures Dot(CountVector(vocab, u), CountVector(vocab, v)) == Overlap(u, v)
  {
    if |u| == 0 {
      DotEmpty(vocab, v);
    } else {
      assert u[0] in u;
      DotDropFirst(vocab, u, v);
      PickPresent(vocab, u[0], v);
      assert Covers(vocab, u[1..]) by {
        forall t | t in u[1..] ensures t in vocab {
          assert t in u;
        }
      }
      DotIsOverlap(vocab, u[1..], v);
    }
  }

  /** Entry `(i, j)` of the dot-product matrix is the overlap of documents `i` and `j`. */
  lemma GramIsOverlap(docs: seq<Document>, i: nat, j: nat)
    requires i < |docs| && j < |docs|
    ensures Gram(docs)[i][j] == Overlap(docs[i], docs[j])
  {
    var vocab := Vocabulary(docs);
    DotIsOverlap(vocab, docs[i], docs[j]);
  }

  /** Two vocabularies that both list every token of `u` once agree on every
      dot product with `u`. */
  lemma VocabularyOrderIrrelevant(vocab1: seq<Token>, vocab2: seq<Token>, u: Document, v: Document)
    requires Distinct(vocab1) && Covers(vocab1, u)
    requires Distinct(vocab2) && Covers(vocab2, u)
    ensures Dot(CountVector(vocab1, u), CountVector(vocab1, v))
            == Dot(CountVector(vocab2, u), CountVector(vocab2, v))
  {
    DotIsOverlap(vocab1, u, v);
    DotIsOverlap(vocab2, u, v);
  }

  lemma OverlapSymmetric(u: Document, v: Document)
    ensures Overlap(u, v) == Overlap(v, u)
  {
    var vocab := Vocabulary([u, v]);
    assert [u, v][0] == u && [u, v][1] == v;
    DotIsOverlap(vocab, u, v);
    DotIsOverlap(vocab, v, u);
    DotSymmetric(CountVector(vocab, u), CountVector(vocab, v));
  }

  /** A document shares at least one pair with itself per token it holds. */
  lemma {:induction false} OverlapWithSuperset(w: Document, u: Document)
    requires forall t :: t in w ==> t in u
    ensures Overlap(w, u) >= |w|
  {
    if |w| > 0 {
      assert w[0] in w;
      forall t | t in w[1..] ensures t in u {
        assert t in w;
      }
      OverlapWithSuperset(w[1..], u);
    }
  }

  /** The dot-product matrix is symmetric. */
  lemma GramSymmetric(docs: seq<Document>, i: nat, j: nat)
    requires i < |docs| && j < |docs|
    ensures Gram(docs)[i][j] == Gram(docs)[j][i]
  {
    GramIsOverlap(docs, i, j);
    GramIsOverlap(docs, j, i);
    OverlapSymmetric(docs[i], docs[j]);
  }

  /** A document's squared norm is at least its length: zero exactly for an
      empty bag of words. */
  lemma SelfDot(docs: seq<Document>, i: nat)
    requires i < |docs|
    ensures Gram(docs)[i][i] >= |docs[i]|
    ensures Gram(docs)[i][i] == 0 <==> docs[i] == []
  {
    GramIsOverlap(docs, i, i);
    OverlapWithSuperset(docs[i], docs[i]);
  }

  /** The similarity matrix is symmetric whenever the scoring of a dot product
      does not depend on the order of the two norms, as `d / sqrt(a * b)` does not. */
  lemma CosineSimSymmetric(docs: seq<Document>, cosine: (nat, nat, nat) -> real, i: nat, j: nat)
    requires forall d, a, b :: cosine(d, a, b) == cosine(d, b, a)
    requires i < |docs| && j < |docs|
    ensures var r := CosineSim(docs, cosine);
            r.Success? ==> r.value[i][j] == r.value[j][i]
  {
    GramSymmetric(docs, i, j);
  }

  /** Self-similarity is 1 for every non-empty bag of words, and for an empty
      one it is whatever the scoring gives a zero vector, as long as a vector
      scores 1 against itself. */
  lemma SelfSimilarity(docs: seq<Document>, cosine: (nat, nat, nat) -> real, i: nat)
    requires forall a :: a > 0 ==> cosine(a, a, a) == 1.0
    requires i < |docs|
    ensures docs[i] != [] ==> CosineSim(docs, cosine).Success?
    ensures var r := CosineSim(docs, cosine);
            r.Success? ==> r.value[i][i] == if docs[i] != [] then 1.0 else cosine(0, 0, 0)
  {
    SelfDot(docs, i);
  }
}
