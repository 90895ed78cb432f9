/**
 What the ranking prefers (internal/search/bm25.go:157-186, 279-304, 406-469): rarer words, shorter documents,
 words next to each other in the order of the query, and titles; and the order of the result list told in
 scores and path names.
 */
module RankingLaws {
  import opened Ranking
  import opened TopResults

  // ---------------------------------------------------------------- counts

  function Occurrences(tokens: seq<string>, t: string): set<nat> {
    set i: nat | i < |tokens| && tokens[i] == t
  }

  predicate PairAt(tokens: seq<string>, a: string, b: string, i: nat) {
    i + 1 < |tokens| && tokens[i] == a && tokens[i + 1] == b
  }

  function PairOccurrences(tokens: seq<string>, a: string, b: string): set<nat> {
    set i: nat | i < |tokens| && PairAt(tokens, a, b, i)
  }

  lemma {:induction false} CountIsOccurrences(tokens: seq<string>, t: string)
    ensures Count(tokens, t) == |Occurrences(tokens, t)|
  {
    if tokens != [] {
      var n := |tokens| - 1;
      CountIsOccurrences(tokens[..n], t);
      var before := Occurrences(tokens[..n], t);
      assert Occurrences(tokens, t) == if tokens[n] == t then before + {n} else before;
    } else {
      assert Occurrences(tokens, t) == {};
    }
  }

  lemma {:induction false} PairCountIsOccurrences(tokens: seq<string>, a: string, b: string)
    ensures PairCount(tokens, a, b) == |PairOccurrences(tokens, a, b)|
  {
    if |tokens| >= 2 {
      var n := |tokens| - 1;
      PairCountIsOccurrences(tokens[..n], a, b);
      var before := PairOccurrences(tokens[..n], a, b);
      assert PairOccurrences(tokens, a, b)
          == if tokens[n - 1] == a && tokens[n] == b then before + {n - 1} else before;
    } else {
      assert PairOccurrences(tokens, a, b) == {};
    }
  }

  /** A single word counts the places it stands at, the phrase key those where the query's first two words do. */
  lemma TermFreqMeans(tokens: seq<string>, raw: seq<string>, t: string)
    requires Tokens(raw)
    ensures t in raw ==> TermFreq(tokens, t) == |Occurrences(tokens, t)|
    ensures |raw| >= 2 ==>
              TermFreq(tokens, Terms(raw)[|Terms(raw)| - 1]) == |PairOccurrences(tokens, raw[0], raw[1])|
    ensures |Terms(raw)| == |Distinct(raw)| + if |raw| >= 2 then 1 else 0
  {
    hide Count, PairCount, Distinct;
    CountIsOccurrences(tokens, t);
    if t in raw {
      TokenFreq(tokens, raw, t);
    }
    if |raw| >= 2 {
      assert IsToken(raw[0]);
      PhraseKeyParts(raw[0], raw[1]);
      PairCountIsOccurrences(tokens, raw[0], raw[1]);
    }
  }

  lemma {:induction false} DocFreqIsDocuments(docs: seq<Doc>, term: string)
    ensures DocFreq(docs, term) == |set i: nat | i < |docs| && TermFreq(docs[i].tokens, term) > 0|
  {
    hide TermFreq;
    var all := set i: nat | i < |docs| && TermFreq(docs[i].tokens, term) > 0;
    if docs == [] {
      assert all == {};
    } else {
      var n := |docs| - 1;
      DocFreqIsDocuments(docs[..n], term);
      var before := set i: nat | i < |docs[..n]| && TermFreq(docs[..n][i].tokens, term) > 0;
      assert all == if TermFreq(docs[n].tokens, term) > 0 then before + {n} else before;
    }
  }

  // ---------------------------------------------------------------- rare words weigh more

  ghost predicate Increasing(log: real -> real) {
    forall x, y | 0.0 < x < y :: log(x) < log(y)
  }

  /** The fewer documents a term occurs in, the more it weighs. */
  lemma RarerWeighsMore(log: real -> real, n: nat, df: nat, df': nat)
    requires Increasing(log) && df < df' <= n
    ensures Idf(log, n, df') < Idf(log, n, df)
  {
    var a, p := (n - df) as real + 0.5, df as real + 0.5;
    var b, q := (n - df') as real + 0.5, df' as real + 0.5;
    assert b * p < a * p by { Scaled(b, a, p); }
    assert a * p < a * q by { Scaled(p, q, a); }
    QuotientOrder(b, q, a, p);
    assert 0.0 * q < b * 1.0;
    QuotientOrder(0.0, 1.0, b, q);
  }

  lemma Scaled(x: real, y: real, z: real)
    requires x < y && z > 0.0
    ensures x * z < y * z && z * x < z * y
  {
  }

  /** Any rarer word beats any commoner one: same length, same frequency, no other term in either document. */
  lemma RarerWordScoresMore(log: real -> real, docs: seq<Doc>, i: nat, j: nat, rare: string, common: string)
    requires PositiveAboveOne(log) && Increasing(log) && i < |docs| && j < |docs|
    requires |docs[i].tokens| == |docs[j].tokens|
    requires TermFreq(docs[i].tokens, rare) == TermFreq(docs[j].tokens, common) > 0
    requires DocFreq(docs, rare) < DocFreq(docs, common)
    ensures TermScore(log, docs, j, common) < TermScore(log, docs, i, rare)
  {
    hide TermFreq, DocFreq, Idf, TfNorm, AvgLength;
    RarerWeighsMore(log, |docs|, DocFreq(docs, rare), DocFreq(docs, common));
    AverageIsPositive(docs, i, rare);
    var tf := TermFreq(docs[i].tokens, rare);
    TfNormGrows(tf, tf + 1, |docs[i].tokens|, AvgLength(docs));
    Scaled(Idf(log, |docs|, DocFreq(docs, common)), Idf(log, |docs|, DocFreq(docs, rare)),
           TfNorm(tf, |docs[i].tokens|, AvgLength(docs)));
  }

  lemma {:induction false} ScoreOfOneTerm(log: real -> real, docs: seq<Doc>, i: nat, terms: seq<string>, k: nat)
    requires i < |docs| && k < |terms|
    requires forall m | 0 <= m < |terms| && m != k :: TermFreq(docs[i].tokens, terms[m]) == 0
    ensures Score(log, docs, i, terms) == TermScore(log, docs, i, terms[k])
  {
    hide TermFreq, DocFreq, Idf, TfNorm, AvgLength;
    var n := |terms| - 1;
    if k < n {
      ScoreOfOneTerm(log, docs, i, terms[..n], k);
    } else {
      ScoreOfNone(log, docs, i, terms[..n]);
    }
  }

  lemma {:induction false} ScoreOfNone(log: real -> real, docs: seq<Doc>, i: nat, terms: seq<string>)
    requires i < |docs|
    requires forall m | 0 <= m < |terms| :: TermFreq(docs[i].tokens, terms[m]) == 0
    ensures Score(log, docs, i, terms) == 0.0
  {
    hide TermFreq, DocFreq, Idf, TfNorm, AvgLength;
    if terms != [] {
      ScoreOfNone(log, docs, i, terms[..|terms| - 1]);
    }
  }

  /** What a document is listed with. */
  function HitOf(log: real -> real, docs: seq<Doc>, i: nat, terms: seq<string>): Hit
    requires i < |docs|
  {
    Hit(docs[i].path, Boosted(Score(log, docs, i, terms), docs[i].titleHit))
  }

  /**
   Of two documents of one length without the query in their titles, each with one of its terms equally often and
   no other, the one with the rarer term is listed with the higher score.
   */
  lemma RarerOutranks(log: real -> real, docs: seq<Doc>, i: nat, j: nat, terms: seq<string>, k: nat, l: nat)
    requires PositiveAboveOne(log) && Increasing(log) && i < |docs| && j < |docs|
    requires k < |terms| && l < |terms|
    requires !docs[i].titleHit && !docs[j].titleHit && |docs[i].tokens| == |docs[j].tokens|
    requires TermFreq(docs[i].tokens, terms[k]) == TermFreq(docs[j].tokens, terms[l]) > 0
    requires forall m | 0 <= m < |terms| && m != k :: TermFreq(docs[i].tokens, terms[m]) == 0
    requires forall m | 0 <= m < |terms| && m != l :: TermFreq(docs[j].tokens, terms[m]) == 0
    requires DocFreq(docs, terms[k]) < DocFreq(docs, terms[l])
    ensures HitOf(log, docs, j, terms).score < HitOf(log, docs, i, terms).score
    ensures Outranks(HitOf(log, docs, i, terms), HitOf(log, docs, j, terms))
  {
    hide TermFreq, DocFreq, TermScore, Score;
    ScoreOfOneTerm(log, docs, i, terms, k);
    ScoreOfOneTerm(log, docs, j, terms, l);
    RarerWordScoresMore(log, docs, i, j, terms[k], terms[l]);
  }

  // ---------------------------------------------------------------- long documents weigh less

  /** At one frequency, a longer document gets less. */
  lemma LongerGetsLess(tf: nat, docLen: nat, docLen': nat, avg: real)
    requires tf > 0 && avg > 0.0 && docLen < docLen'
    ensures tf as real + Saturation(docLen, avg) > 0.0 && tf as real + Saturation(docLen', avg) > 0.0
    ensures TfNorm(tf, docLen', avg) < TfNorm(tf, docLen, avg)
  {
    SaturationIsPositive(docLen, avg);
    SaturationIsPositive(docLen', avg);
    var x, y := docLen as real / avg, docLen' as real / avg;
    Scaled(docLen as real, docLen' as real, avg);
    QuotientOrder(docLen as real, avg, docLen' as real, avg);
    Scaled(x, y, B);
    var k, k' := Saturation(docLen, avg), Saturation(docLen', avg);
    assert k < k';
    var top := tf as real * (K1 + 1.0);
    Scaled(tf as real + k, tf as real + k', top);
    QuotientOrder(top, tf as real + k', top, tf as real + k);
  }

  /** One occurrence counts as one in a document of average length, and as 2.2/3.1 in one twice as long. */
  lemma AverageDocumentCountsOne(docLen: nat, avg: real)
    requires avg > 0.0
    ensures 1.0 + Saturation(docLen, avg) > 0.0
    ensures docLen as real == avg ==> TfNorm(1, docLen, avg) == 1.0
    ensures docLen as real == 2.0 * avg ==> TfNorm(1, docLen, avg) == 2.2 / 3.1
  {
    SaturationIsPositive(docLen, avg);
    if docLen as real == avg {
      assert docLen as real / avg == 1.0;
    } else if docLen as real == 2.0 * avg {
      assert docLen as real / avg == 2.0;
    }
  }

  lemma {:induction false} EqualLengthsAverage(docs: seq<Doc>, length: nat)
    requires docs != [] && forall i | 0 <= i < |docs| :: |docs[i].tokens| == length
    ensures TotalTokens(docs) == |docs| * length
    ensures AvgLength(docs) == length as real
  {
    var n := |docs| - 1;
    if n > 0 {
      EqualLengthsAverage(docs[..n], length);
      assert (n + 1) * length == n * length + length;
    } else {
      assert docs[..n] == [];
    }
    assert (|docs| * length) as real == |docs| as real * length as real;
  }

  /** In a vault of notes of one length a term that occurs once adds exactly its weight. */
  lemma OneOccurrenceAddsIdf(log: real -> real, docs: seq<Doc>, i: nat, term: string)
    requires i < |docs| && forall j | 0 <= j < |docs| :: |docs[j].tokens| == |docs[i].tokens|
    requires TermFreq(docs[i].tokens, term) == 1
    ensures TermScore(log, docs, i, term) == Idf(log, |docs|, DocFreq(docs, term))
  {
    hide TermFreq, DocFreq, Idf, TotalTokens;
    EqualLengthsAverage(docs, |docs[i].tokens|);
    AverageIsPositive(docs, i, term);
    AverageDocumentCountsOne(|docs[i].tokens|, AvgLength(docs));
  }

  // ---------------------------------------------------------------- phrases and titles

  lemma {:induction false} ScoreGrows(log: real -> real, docs: seq<Doc>, i: nat, j: nat, terms: seq<string>)
    requires PositiveAboveOne(log) && i < |docs| && j < |docs| && |docs[i].tokens| == |docs[j].tokens|
    requires forall m | 0 <= m < |terms| :: TermFreq(docs[j].tokens, terms[m]) <= TermFreq(docs[i].tokens, terms[m])
    ensures Score(log, docs, j, terms) <= Score(log, docs, i, terms)
    ensures (exists m :: 0 <= m < |terms| && TermFreq(docs[j].tokens, terms[m]) < TermFreq(docs[i].tokens, terms[m]))
            ==> Score(log, docs, j, terms) < Score(log, docs, i, terms)
  {
    hide TermFreq, TermScore;
    if terms != [] {
      var n := |terms| - 1;
      ScoreGrows(log, docs, i, j, terms[..n]);
      TermScoreGrows(log, docs, i, j, terms[n]);
      assert forall m | 0 <= m < n :: terms[..n][m] == terms[m];
    }
  }

  lemma TermScoreGrows(log: real -> real, docs: seq<Doc>, i: nat, j: nat, term: string)
    requires PositiveAboveOne(log) && i < |docs| && j < |docs| && |docs[i].tokens| == |docs[j].tokens|
    ensures TermFreq(docs[j].tokens, term) == TermFreq(docs[i].tokens, term) ==>
              TermScore(log, docs, j, term) == TermScore(log, docs, i, term)
    ensures TermFreq(docs[j].tokens, term) < TermFreq(docs[i].tokens, term) ==>
              TermScore(log, docs, j, term) < TermScore(log, docs, i, term)
  {
    hide TermFreq, DocFreq, Idf, TfNorm, AvgLength;
    var tf, tf' := TermFreq(docs[j].tokens, term), TermFreq(docs[i].tokens, term);
    TermScoreBounds(log, docs, i, term);
    if 0 < tf < tf' {
      IdfIsPositive(log, |docs|, DocFreq(docs, term));
      AverageIsPositive(docs, i, term);
      TfNormGrows(tf, tf', |docs[i].tokens|, AvgLength(docs));
      Scaled(TfNorm(tf, |docs[i].tokens|, AvgLength(docs)), TfNorm(tf', |docs[i].tokens|, AvgLength(docs)),
             Idf(log, |docs|, DocFreq(docs, term)));
    }
  }

  /**
   Of two documents of one length that hold every word of the query equally often, the one in which its first two
   words stand next to each other, in this order, more often has the higher score.
   */
  lemma PhraseOutranks(log: real -> real, docs: seq<Doc>, i: nat, j: nat, raw: seq<string>)
    requires PositiveAboveOne(log) && Tokens(raw) && |raw| >= 2
    requires i < |docs| && j < |docs| && |docs[i].tokens| == |docs[j].tokens|
    requires forall t | t in raw :: |Occurrences(docs[i].tokens, t)| == |Occurrences(docs[j].tokens, t)|
    requires |PairOccurrences(docs[j].tokens, raw[0], raw[1])| < |PairOccurrences(docs[i].tokens, raw[0], raw[1])|
    ensures Score(log, docs, j, Terms(raw)) < Score(log, docs, i, Terms(raw))
  {
    hide TermFreq, Score, Distinct, Tokens, Occurrences, PairOccurrences;
    var terms := Terms(raw);
    forall m | 0 <= m < |terms|
      ensures if m == |terms| - 1 then TermFreq(docs[j].tokens, terms[m]) < TermFreq(docs[i].tokens, terms[m])
              else TermFreq(docs[j].tokens, terms[m]) == TermFreq(docs[i].tokens, terms[m])
    {
      TermFreqMeans(docs[i].tokens, raw, terms[m]);
      TermFreqMeans(docs[j].tokens, raw, terms[m]);
      assert m < |terms| - 1 ==> terms[m] in Distinct(raw);
    }
    var last := |terms| - 1;
    assert TermFreq(docs[j].tokens, terms[last]) < TermFreq(docs[i].tokens, terms[last]);
    ScoreGrows(log, docs, i, j, terms);
  }

  /** A title with a word of the query lifts a document above every other one that scores up to half as much again. */
  lemma TitleOutranks(log: real -> real, docs: seq<Doc>, i: nat, j: nat, terms: seq<string>)
    requires i < |docs| && j < |docs| && docs[i].titleHit && !docs[j].titleHit
    ensures HitOf(log, docs, j, terms).score < HitOf(log, docs, i, terms).score
            <==> 2.0 * Score(log, docs, j, terms) < 3.0 * Score(log, docs, i, terms)
  {
    hide Score;
  }

  // ---------------------------------------------------------------- the list

  /** The names are equal up to position k, where the first one ends or has the smaller character. */
  predicate PartsBefore(a: string, b: string, k: nat) {
    k <= |a| && k < |b| && a[..k] == b[..k] && (k == |a| || a[k] < b[k])
  }

  lemma PartsInTail(a: string, b: string, k: nat)
    requires a != [] && b != []
    ensures PartsBefore(a, b, k + 1) <==> a[0] == b[0] && PartsBefore(a[1..], b[1..], k)
  {
    if k < |a| && k + 1 < |b| {
      assert a[..k + 1] == [a[0]] + a[1..][..k] && b[..k + 1] == [b[0]] + b[1..][..k];
      assert a[..k + 1][1..] == a[1..][..k] && b[..k + 1][1..] == b[1..][..k];
      assert a[..k + 1][0] == a[0] && b[..k + 1][0] == b[0];
    }
  }

  /** Path names are compared lexicographically. */
  lemma {:induction false} PathLessMeans(a: string, b: string)
    ensures PathLess(a, b) <==> exists k: nat :: PartsBefore(a, b, k)
  {
    assert PartsBefore(a, b, 0) <==> b != [] && (a == [] || a[0] < b[0]);
    if a != [] && b != [] {
      if a[0] == b[0] {
        PathLessMeans(a[1..], b[1..]);
        if k: nat :| PartsBefore(a[1..], b[1..], k) {
          PartsInTail(a, b, k);
        }
      }
      if k: nat :| PartsBefore(a, b, k) {
        if k > 0 {
          PartsInTail(a, b, k - 1);
        }
      }
    }
  }

  lemma {:induction false} HitsAreDocuments(log: real -> real, docs: seq<Doc>, terms: seq<string>, n: nat, h: Hit)
    requires n <= |docs|
    ensures h in ScoredHits(log, docs, terms, n)
            <==> exists i: nat | i < n :: Score(log, docs, i, terms) != 0.0 && h == HitOf(log, docs, i, terms)
  {
    hide Score, Boosted;
    if n > 0 {
      HitsAreDocuments(log, docs, terms, n - 1, h);
    }
  }

  /**
   The result list: documents with a score, each listed with its own; scores never ascend, path names do where
   scores are equal; it has no more entries than any of its three limits, and is as long as they allow.
   */
  lemma ListedByScore(log: real -> real, docs: seq<Doc>, terms: seq<string>, limit: int, maxResults: int)
    ensures var hits := ScoredHits(log, docs, terms, |docs|);
            var results := Top(hits, EffectiveLimit(limit, maxResults));
            && (forall k | 0 <= k < |results| ::
                  exists i: nat | i < |docs| :: Score(log, docs, i, terms) != 0.0 && results[k] == HitOf(log, docs, i, terms))
            && (forall j, k | 0 <= j < k < |results| ::
                  && results[j].score >= results[k].score
                  && (results[j].score == results[k].score ==> !PathLess(results[k].path, results[j].path)))
            && var asked := if limit > 0 then limit else 20;
            && |results| <= |hits| && |results| <= asked && (maxResults > 0 ==> |results| <= maxResults)
            && (|results| == |hits| || |results| == asked || (maxResults > 0 && |results| == maxResults))
  {
    hide Score, Sorted, HitOf, Boosted, PathLess;
    var hits := ScoredHits(log, docs, terms, |docs|);
    var results := Top(hits, EffectiveLimit(limit, maxResults));
    var cut := NoOmittedHitOutranks(hits, EffectiveLimit(limit, maxResults));
    forall k | 0 <= k < |results|
      ensures exists i: nat | i < |docs| :: Score(log, docs, i, terms) != 0.0 && results[k] == HitOf(log, docs, i, terms)
    {
      assert results[k] in multiset(results);
      assert results[k] in multiset(hits);
      HitsAreDocuments(log, docs, terms, |docs|, results[k]);
    }
    forall j, k | 0 <= j < k < |results|
      ensures results[j].score >= results[k].score
      ensures results[j].score == results[k].score ==> !PathLess(results[k].path, results[j].path)
    {
      assert AtLeast(results[j], results[k]);
    }
  }

  /** Whenever a document is listed, every one with a higher listed score stands in front of it. */
  lemma BetterIsListedFirst(log: real -> real, docs: seq<Doc>, terms: seq<string>, limit: nat, i: nat, k: nat)
    returns (m: nat)
    requires i < |docs| && Score(log, docs, i, terms) != 0.0
    requires var results := Top(ScoredHits(log, docs, terms, |docs|), limit);
             k < |results| && results[k].score < HitOf(log, docs, i, terms).score
    ensures m < k && Top(ScoredHits(log, docs, terms, |docs|), limit)[m] == HitOf(log, docs, i, terms)
  {
    hide Score, Sorted, HitOf, Boosted, PathLess, Top;
    var hits, h := ScoredHits(log, docs, terms, |docs|), HitOf(log, docs, i, terms);
    var results := Top(hits, limit);
    HitsAreDocuments(log, docs, terms, |docs|, h);
    var cut := NoOmittedHitOutranks(hits, limit);
    assert h in multiset(hits);
    assert h !in cut by {
      if j :| 0 <= j < |cut| && cut[j] == h {
        assert Outranks(cut[j], results[k]);
      }
    }
    assert h in multiset(results);
    m :| 0 <= m < |results| && results[m] == h;
    assert m > k ==> AtLeast(results[k], results[m]);
  }

  /** The documents that are ranked: the first 10000 of the walk that are in scope, all of them when there are fewer. */
  lemma {:induction false} ConsideredMeans(walk: seq<Doc>, inScope: string -> bool, d: Doc)
    ensures d in InScope(walk, inScope) <==> d in walk && inScope(d.path)
    ensures Considered(walk, inScope) <= InScope(walk, inScope)
    ensures |Considered(walk, inScope)| < 10_000 ==> Considered(walk, inScope) == InScope(walk, inScope)
    ensures |Considered(walk, inScope)| <= 10_000
  {
    if walk != [] {
      var n := |walk| - 1;
      ConsideredMeans(walk[..n], inScope, d);
      assert walk == walk[..n] + [walk[n]];
    }
  }
}
