/**
 BM25 ranking (internal/search/bm25.go): query terms with their phrase key, term counts of a document,
 the score over the reals, and the ordered, capped result list. The logarithm is a parameter of which
 only its sign above 1 is used.
 */
module Ranking {

  const K1 := 1.2
  const B := 0.75
  const PHRASE_KEY_SEP := '\0'

  // ---------------------------------------------------------------- query terms

  predicate IsPhraseKey(term: string) {
    PHRASE_KEY_SEP in term
  }

  /** A token of letters and digits; in particular it does not contain the separator. */
  predicate IsToken(t: string) {
    t != [] && !IsPhraseKey(t)
  }

  predicate Tokens(ts: seq<string>) {
    forall i | 0 <= i < |ts| :: IsToken(ts[i])
  }

  function PhraseKey(a: string, b: string): string {
    a + [PHRASE_KEY_SEP] + b
  }

  /** The tokens in order of first occurrence. */
  function Distinct(raw: seq<string>): (terms: seq<string>)
    ensures forall t :: t in terms <==> t in raw
  {
    if raw == [] then []
    else
      var n := |raw| - 1;
      var terms := Distinct(raw[..n]);
      assert raw == raw[..n] + [raw[n]];
      if raw[n] in terms then terms else terms + [raw[n]]
  }

  function Terms(raw: seq<string>): seq<string> {
    if |raw| >= 2 then Distinct(raw) + [PhraseKey(raw[0], raw[1])] else Distinct(raw)
  }

  /** No term is scored twice, and reading more of the query only adds terms behind the others. */
  lemma {:induction false} TermsAreDistinct(raw: seq<string>)
    requires Tokens(raw)
    ensures forall i, j | 0 <= i < j < |Terms(raw)| :: Terms(raw)[i] != Terms(raw)[j]
    ensures forall n | 0 <= n <= |raw| :: Distinct(raw[..n]) <= Distinct(raw)
  {
    DistinctIsDistinct(raw);
    forall n | 0 <= n <= |raw| ensures Distinct(raw[..n]) <= Distinct(raw) {
      DistinctGrows(raw, n);
    }
    if |raw| >= 2 {
      KeyIsNoToken(raw, PhraseKey(raw[0], raw[1])) by {
        assert PhraseKey(raw[0], raw[1])[|raw[0]|] == PHRASE_KEY_SEP;
      }
    }
  }

  lemma {:induction false} DistinctIsDistinct(raw: seq<string>)
    ensures forall i, j | 0 <= i < j < |Distinct(raw)| :: Distinct(raw)[i] != Distinct(raw)[j]
  {
    if raw != [] {
      DistinctIsDistinct(raw[..|raw| - 1]);
    }
  }

  lemma {:induction false} DistinctGrows(raw: seq<string>, n: nat)
    requires n <= |raw|
    ensures Distinct(raw[..n]) <= Distinct(raw)
  {
    if n == |raw| {
      assert raw[..n] == raw;
    } else {
      DistinctGrows(raw[..|raw| - 1], n);
      assert raw[..|raw| - 1][..n] == raw[..n];
    }
  }

  lemma KeyIsNoToken(raw: seq<string>, key: string)
    requires Tokens(raw) && IsPhraseKey(key)
    ensures key !in raw
  {
    forall i | 0 <= i < |raw| ensures raw[i] != key {
      assert IsToken(raw[i]);
    }
  }

  method BuildTerms(raw: seq<string>) returns (terms: seq<string>)
    requires Tokens(raw)
    ensures terms == Terms(raw)
  {
    if |raw| == 0 {
      return [];
    }
    terms := [];
    var seen: set<string> := {};
    for i := 0 to |raw|
      invariant terms == Distinct(raw[..i])
      invariant forall t :: t in seen <==> t in terms
    {
      var t := raw[i];
      assert raw[..i + 1][..i] == raw[..i];
      if t !in seen {
        seen := seen + {t};
        terms := terms + [t];
      }
    }
    assert raw[..|raw|] == raw;
    if |raw| >= 2 {
      var phraseKey := raw[0] + [PHRASE_KEY_SEP] + raw[1];
      assert phraseKey[|raw[0]|] == PHRASE_KEY_SEP;
      KeyIsNoToken(raw, phraseKey);
      if phraseKey !in seen {
        terms := terms + [phraseKey];
      }
    }
  }

  // ---------------------------------------------------------------- counting

  function Count(tokens: seq<string>, t: string): nat {
    if tokens == [] then 0
    else Count(tokens[..|tokens| - 1], t) + if tokens[|tokens| - 1] == t then 1 else 0
  }

  /** Adjacent pairs (a, b). */
  function PairCount(tokens: seq<string>, a: string, b: string): nat {
    if |tokens| < 2 then 0
    else
      var n := |tokens| - 1;
      PairCount(tokens[..n], a, b) + if tokens[n - 1] == a && tokens[n] == b then 1 else 0
  }

  /** The position of the first separator. */
  function SepAt(term: string): (n: nat)
    ensures n <= |term| && forall k | 0 <= k < n :: term[k] != PHRASE_KEY_SEP
    ensures n < |term| ==> term[n] == PHRASE_KEY_SEP
    ensures n < |term| <==> IsPhraseKey(term)
  {
    if term == [] || term[0] == PHRASE_KEY_SEP then 0 else 1 + SepAt(term[1..])
  }

  /** How often a query term occurs: single tokens, or the two words of the key next to each other. */
  function TermFreq(tokens: seq<string>, term: string): nat {
    if IsPhraseKey(term) then
      var n := SepAt(term);
      PairCount(tokens, term[..n], term[n + 1..])
    else
      Count(tokens, term)
  }

  method CountTerm(tokens: seq<string>, term: string) returns (freq: nat)
    ensures freq == TermFreq(tokens, term)
  {
    freq := 0;
    if !IsPhraseKey(term) {
      for i := 0 to |tokens|
        invariant freq == Count(tokens[..i], term)
      {
        assert tokens[..i + 1][..i] == tokens[..i];
        if tokens[i] == term {
          freq := freq + 1;
        }
      }
      assert tokens[..|tokens|] == tokens;
    } else {
      var n := SepAt(term);
      var t0, t1 := term[..n], term[n + 1..];
      var i := 0;
      while i + 1 < |tokens|
        invariant 0 <= i && (i + 1 <= |tokens| || i == 0)
        invariant freq == if tokens == [] then 0 else PairCount(tokens[..i + 1], t0, t1)
      {
        assert tokens[..i + 2][..i + 1] == tokens[..i + 1];
        if tokens[i] == t0 && tokens[i + 1] == t1 {
          freq := freq + 1;
        }
        i := i + 1;
      }
      if tokens != [] {
        assert tokens[..i + 1] == tokens;
      }
    }
  }

  /** A pair occurs no more often than either of its words. */
  lemma {:induction false} PairCountBounded(tokens: seq<string>, a: string, b: string)
    ensures PairCount(tokens, a, b) <= Count(tokens, b)
    ensures tokens != [] ==>
              PairCount(tokens, a, b) <= Count(tokens[..|tokens| - 1], a) <= Count(tokens, a)
    decreases |tokens|
  {
    if |tokens| >= 2 {
      PairCountBounded(tokens[..|tokens| - 1], a, b);
    }
  }

  lemma PhraseKeyParts(a: string, b: string)
    requires IsToken(a)
    ensures IsPhraseKey(PhraseKey(a, b)) && SepAt(PhraseKey(a, b)) == |a|
    ensures PhraseKey(a, b)[..|a|] == a && PhraseKey(a, b)[|a| + 1..] == b
  {
    var key := PhraseKey(a, b);
    var n := SepAt(key);
    assert key[|a|] == PHRASE_KEY_SEP;
    assert forall k | 0 <= k < |a| :: key[k] == a[k] && a[k] in a;
  }

  /** The phrase count of a document never exceeds the count of either word. */
  lemma PhraseCountBounded(tokens: seq<string>, a: string, b: string)
    requires IsToken(a) && IsToken(b)
    ensures TermFreq(tokens, PhraseKey(a, b)) <= TermFreq(tokens, a)
    ensures TermFreq(tokens, PhraseKey(a, b)) <= TermFreq(tokens, b)
  {
    PhraseKeyParts(a, b);
    PairCountBounded(tokens, a, b);
  }

  // ---------------------------------------------------------------- scores

  /** Of the logarithm only this is used: it is positive above 1. */
  ghost predicate PositiveAboveOne(log: real -> real) {
    forall x :: x > 1.0 ==> log(x) > 0.0
  }

  datatype Doc = Doc(path: string, tokens: seq<string>, titleHit: bool)

  function TotalTokens(docs: seq<Doc>): nat {
    if docs == [] then 0 else TotalTokens(docs[..|docs| - 1]) + |docs[|docs| - 1].tokens|
  }

  /** In how many documents a term occurs. */
  function DocFreq(docs: seq<Doc>, term: string): (df: nat)
    ensures df <= |docs|
  {
    if docs == [] then 0
    else DocFreq(docs[..|docs| - 1], term)
         + if TermFreq(docs[|docs| - 1].tokens, term) > 0 then 1 else 0
  }

  function AvgLength(docs: seq<Doc>): real
    requires docs != []
  {
    TotalTokens(docs) as real / |docs| as real
  }

  function Idf(log: real -> real, n: nat, df: nat): real {
    log(((n - df) as real + 0.5) / (df as real + 0.5) + 1.0)
  }

  /** What the term frequency is compared with: grows with the document's relative length. */
  function Saturation(docLen: nat, avg: real): real
    requires avg > 0.0
  {
    K1 * (1.0 - B + B * (docLen as real / avg))
  }

  function TfNorm(tf: nat, docLen: nat, avg: real): real
    requires avg > 0.0 && tf as real + Saturation(docLen, avg) != 0.0
  {
    (tf as real * (K1 + 1.0)) / (tf as real + Saturation(docLen, avg))
  }

  lemma SaturationIsPositive(docLen: nat, avg: real)
    requires avg > 0.0
    ensures Saturation(docLen, avg) > 0.0
  {
    assert docLen as real / avg >= 0.0;
    assert B * (docLen as real / avg) >= 0.0;
  }

  lemma QuotientOrder(a: real, p: real, b: real, q: real)
    requires p > 0.0 && q > 0.0 && a * q < b * p
    ensures a / p < b / q
  {
    var x, y := a / p, b / q;
    assert x * p == a && y * q == b;
    assert x * (p * q) == a * q && y * (p * q) == b * p;
    if x >= y {
      ProductOrder(y, x, p * q);
    }
  }

  lemma ProductOrder(x: real, y: real, z: real)
    requires x <= y && z > 0.0
    ensures x * z <= y * z
  {
  }

  lemma ProductBetween(x: real, y: real) returns (product: real, bound: real)
    requires x > 0.0 && 0.0 < y < 2.2
    ensures product == x * y && bound == 2.2 * x && 0.0 < product < bound
  {
    product, bound := x * y, 2.2 * x;
  }

  /** At fixed length the normalised frequency strictly grows with the frequency, and stays below 2.2. */
  lemma TfNormGrows(tf: nat, tf': nat, docLen: nat, avg: real)
    requires avg > 0.0 && tf < tf'
    ensures tf as real + Saturation(docLen, avg) > 0.0
    ensures TfNorm(tf, docLen, avg) < TfNorm(tf', docLen, avg) < 2.2
    ensures tf > 0 ==> TfNorm(tf, docLen, avg) > 0.0
  {
    SaturationIsPositive(docLen, avg);
    var k := Saturation(docLen, avg);
    var a, b := tf as real, tf' as real;
    assert a * k < b * k;
    assert (a * 2.2) * (b + k) < (b * 2.2) * (a + k) by {
      assert (a * 2.2) * (b + k) == 2.2 * (a * b) + 2.2 * (a * k);
      assert (b * 2.2) * (a + k) == 2.2 * (a * b) + 2.2 * (b * k);
    }
    QuotientOrder(a * 2.2, a + k, b * 2.2, b + k);
    assert (b * 2.2) * 1.0 < 2.2 * (b + k);
    QuotientOrder(b * 2.2, b + k, 2.2, 1.0);
    if tf > 0 {
      assert 0.0 * (a + k) < (a * 2.2) * 1.0;
      QuotientOrder(0.0, 1.0, a * 2.2, a + k);
    }
  }

  lemma IdfIsPositive(log: real -> real, n: nat, df: nat)
    requires PositiveAboveOne(log) && df <= n
    ensures Idf(log, n, df) > 0.0
  {
    var a, p := (n - df) as real + 0.5, df as real + 0.5;
    assert 0.0 * p < a * 1.0;
    QuotientOrder(0.0, 1.0, a, p);
  }

  lemma {:induction false} DocTokensCounted(docs: seq<Doc>, i: nat)
    requires i < |docs|
    ensures TotalTokens(docs) >= |docs[i].tokens|
  {
    var n := |docs| - 1;
    if i < n {
      DocTokensCounted(docs[..n], i);
      assert docs[..n][i] == docs[i];
    }
  }

  lemma OccurringTermHasTokens(tokens: seq<string>, term: string)
    requires TermFreq(tokens, term) > 0
    ensures tokens != []
  {
  }

  /** The score never divides by zero: a document with an occurring term makes the average positive. */
  lemma AverageIsPositive(docs: seq<Doc>, i: nat, term: string)
    requires i < |docs| && TermFreq(docs[i].tokens, term) > 0
    ensures AvgLength(docs) > 0.0
  {
    OccurringTermHasTokens(docs[i].tokens, term);
    DocTokensCounted(docs, i);
    assert 0.0 * (|docs| as real) < TotalTokens(docs) as real * 1.0;
    QuotientOrder(0.0, 1.0, TotalTokens(docs) as real, |docs| as real);
  }

  /** One term's contribution to the score of document i; terms that do not occur are skipped. */
  function TermScore(log: real -> real, docs: seq<Doc>, i: nat, term: string): real
    requires i < |docs|
  {
    var tf := TermFreq(docs[i].tokens, term);
    if tf == 0 then
      0.0
    else
      AverageIsPositive(docs, i, term);
      SaturationIsPositive(|docs[i].tokens|, AvgLength(docs));
      Idf(log, |docs|, DocFreq(docs, term)) * TfNorm(tf, |docs[i].tokens|, AvgLength(docs))
  }

  function Score(log: real -> real, docs: seq<Doc>, i: nat, terms: seq<string>): real
    requires i < |docs|
  {
    if terms == [] then 0.0
    else Score(log, docs, i, terms[..|terms| - 1]) + TermScore(log, docs, i, terms[|terms| - 1])
  }

  function IdfSum(log: real -> real, docs: seq<Doc>, terms: seq<string>): real {
    if terms == [] then 0.0
    else IdfSum(log, docs, terms[..|terms| - 1]) + Idf(log, |docs|, DocFreq(docs, terms[|terms| - 1]))
  }

  lemma TermScoreBounds(log: real -> real, docs: seq<Doc>, i: nat, term: string)
    requires PositiveAboveOne(log) && i < |docs|
    ensures 0.0 <= TermScore(log, docs, i, term) < 2.2 * Idf(log, |docs|, DocFreq(docs, term))
    ensures TermScore(log, docs, i, term) > 0.0 <==> TermFreq(docs[i].tokens, term) > 0
  {
    hide Idf, TfNorm, AvgLength, TermFreq, DocFreq;
    var tf := TermFreq(docs[i].tokens, term);
    var idf := Idf(log, |docs|, DocFreq(docs, term));
    IdfIsPositive(log, |docs|, DocFreq(docs, term));
    if tf > 0 {
      OccurringTermScore(log, docs, i, term);
    }
  }

  lemma OccurringTermScore(log: real -> real, docs: seq<Doc>, i: nat, term: string)
    requires PositiveAboveOne(log) && i < |docs| && TermFreq(docs[i].tokens, term) > 0
    ensures 0.0 < TermScore(log, docs, i, term) < 2.2 * Idf(log, |docs|, DocFreq(docs, term))
  {
    hide Idf, TfNorm, AvgLength, TermFreq, DocFreq;
    var tf := TermFreq(docs[i].tokens, term);
    IdfIsPositive(log, |docs|, DocFreq(docs, term));
    AverageIsPositive(docs, i, term);
    TfNormGrows(tf, tf + 1, |docs[i].tokens|, AvgLength(docs));
    var x, y := Idf(log, |docs|, DocFreq(docs, term)), TfNorm(tf, |docs[i].tokens|, AvgLength(docs));
    var product, bound := ProductBetween(x, y);
    assert TermScore(log, docs, i, term) == product;
  }

  lemma {:induction false} ScoreBounds(log: real -> real, docs: seq<Doc>, i: nat, terms: seq<string>)
    requires PositiveAboveOne(log) && i < |docs|
    ensures 0.0 <= Score(log, docs, i, terms) <= 2.2 * IdfSum(log, docs, terms)
    ensures terms != [] ==> Score(log, docs, i, terms) < 2.2 * IdfSum(log, docs, terms)
    ensures Score(log, docs, i, terms) > 0.0
            <==> exists k :: 0 <= k < |terms| && TermFreq(docs[i].tokens, terms[k]) > 0
  {
    hide TermScore, TermFreq, Idf;
    if terms != [] {
      var n := |terms| - 1;
      ScoreBounds(log, docs, i, terms[..n]);
      TermScoreBounds(log, docs, i, terms[n]);
      assert forall k | 0 <= k < n :: terms[..n][k] == terms[k];
    }
  }

  lemma TokenFreq(tokens: seq<string>, raw: seq<string>, t: string)
    requires Tokens(raw) && t in raw
    ensures TermFreq(tokens, t) == Count(tokens, t)
  {
    var k :| 0 <= k < |raw| && raw[k] == t;
    assert IsToken(raw[k]);
  }

  lemma OccurringToken(tokens: seq<string>, raw: seq<string>, k: nat) returns (t: string)
    requires Tokens(raw) && k < |Terms(raw)| && TermFreq(tokens, Terms(raw)[k]) > 0
    ensures t in raw && Count(tokens, t) > 0
  {
    hide Count, PairCount, Distinct, PhraseKey;
    if k < |Distinct(raw)| {
      t := Distinct(raw)[k];
      TokenFreq(tokens, raw, t);
    } else {
      t := raw[0];
      assert IsToken(raw[0]) && IsToken(raw[1]);
      PhraseCountBounded(tokens, raw[0], raw[1]);
    }
  }

  lemma OccurringTerm(tokens: seq<string>, raw: seq<string>, t: string) returns (k: nat)
    requires Tokens(raw) && t in raw && Count(tokens, t) > 0
    ensures k < |Terms(raw)| && TermFreq(tokens, Terms(raw)[k]) > 0
  {
    hide Count, PairCount, TermFreq, Distinct;
    TokenFreq(tokens, raw, t);
    assert t in Distinct(raw);
    k :| 0 <= k < |Distinct(raw)| && Distinct(raw)[k] == t;
    assert Terms(raw)[k] == t;
  }

  /** A query's phrase key occurs only where both its words do, so single terms decide. */
  lemma PositiveIffSingleTermOccurs(log: real -> real, docs: seq<Doc>, i: nat, raw: seq<string>)
    requires PositiveAboveOne(log) && i < |docs| && Tokens(raw)
    ensures Score(log, docs, i, Terms(raw)) > 0.0 <==> exists t :: t in raw && Count(docs[i].tokens, t) > 0
  {
    hide Score, Count, PairCount, TermFreq, Terms, IdfSum, Tokens;
    var terms := Terms(raw);
    ScoreBounds(log, docs, i, terms);
    if k :| 0 <= k < |terms| && TermFreq(docs[i].tokens, terms[k]) > 0 {
      var t := OccurringToken(docs[i].tokens, raw, k);
    }
    if t :| t in raw && Count(docs[i].tokens, t) > 0 {
      var k := OccurringTerm(docs[i].tokens, raw, t);
    }
  }
}
