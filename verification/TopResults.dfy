/**
 The ordered, capped result list of the search (internal/search/bm25.go:326-337, 385-472): scores
 descending, paths ascending among equal scores, the first limit of them.
 */
module TopResults {
  import opened Ranking

  datatype Hit = Hit(path: string, score: real)

  const MAX_DOCS := 10_000
  const DEFAULT_LIMIT := 20

  // ---------------------------------------------------------------- the order

  /** Lexicographic order of paths. */
  predicate PathLess(a: string, b: string) {
    b != [] && (a == [] || a[0] < b[0] || (a[0] == b[0] && PathLess(a[1..], b[1..])))
  }

  lemma {:induction false} PathLessIsTotal(a: string, b: string)
    ensures a != b ==> PathLess(a, b) || PathLess(b, a)
    ensures !(PathLess(a, b) && PathLess(b, a))
  {
    if a != [] && b != [] && a[0] == b[0] {
      PathLessIsTotal(a[1..], b[1..]);
      assert a == [a[0]] + a[1..] && b == [b[0]] + b[1..];
    }
  }

  lemma {:induction false} PathLessIsTransitive(a: string, b: string, c: string)
    requires PathLess(a, b) && PathLess(b, c)
    ensures PathLess(a, c)
  {
    if a != [] && a[0] == b[0] && b[0] == c[0] {
      PathLessIsTransitive(a[1..], b[1..], c[1..]);
    }
  }

  predicate Outranks(a: Hit, b: Hit) {
    a.score > b.score || (a.score == b.score && PathLess(a.path, b.path))
  }

  /** May stand before: b does not outrank a. */
  predicate AtLeast(a: Hit, b: Hit) {
    !Outranks(b, a)
  }

  lemma AtLeastIsTransitive(a: Hit, b: Hit, c: Hit)
    requires AtLeast(a, b) && AtLeast(b, c)
    ensures AtLeast(a, c)
  {
    hide PathLess;
    PathLessIsTotal(a.path, b.path);
    PathLessIsTotal(b.path, c.path);
    PathLessIsTotal(a.path, c.path);
    if PathLess(a.path, b.path) && PathLess(b.path, c.path) {
      PathLessIsTransitive(a.path, b.path, c.path);
    }
  }

  // ---------------------------------------------------------------- sorting and the cap

  predicate Ordered(hits: seq<Hit>) {
    forall i, j | 0 <= i < j < |hits| :: AtLeast(hits[i], hits[j])
  }

  /** Stable insertion: behind everything the new hit does not outrank. */
  function Insert(hits: seq<Hit>, x: Hit): (r: seq<Hit>)
    requires Ordered(hits)
    ensures multiset(r) == multiset(hits) + multiset{x}
    ensures Ordered(r)
  {
    hide AtLeast;
    if hits == [] then
      [x]
    else
      var n := |hits| - 1;
      var last := hits[n];
      assert hits == hits[..n] + [last];
      if Outranks(x, last) then
        var r := Insert(hits[..n], x);
        InsertedBeforeLast(hits, x, r);
        r + [last]
      else
        BehindAll(hits, x);
        hits + [x]
  }

  lemma BehindAll(hits: seq<Hit>, x: Hit)
    requires hits != [] && Ordered(hits) && !Outranks(x, hits[|hits| - 1])
    ensures Ordered(hits + [x])
  {
    hide Outranks;
    var last := hits[|hits| - 1];
    assert AtLeast(last, x);
    forall i | 0 <= i < |hits| ensures AtLeast(hits[i], x) {
      if i < |hits| - 1 {
        AtLeastIsTransitive(hits[i], last, x);
      }
    }
  }

  lemma InsertedBeforeLast(hits: seq<Hit>, x: Hit, r: seq<Hit>)
    requires hits != [] && Ordered(hits) && Outranks(x, hits[|hits| - 1])
    requires Ordered(r) && multiset(r) == multiset(hits[..|hits| - 1]) + multiset{x}
    ensures Ordered(r + [hits[|hits| - 1]])
  {
    var n := |hits| - 1;
    var last := hits[n];
    PathLessIsTotal(x.path, last.path);
    forall i | 0 <= i < |r| ensures AtLeast(r[i], last) {
      assert r[i] in multiset(r);
      if r[i] != x {
        assert r[i] in multiset(hits[..n]);
        var k :| 0 <= k < n && hits[..n][k] == r[i];
        assert hits[k] == r[i];
      }
    }
  }

  function Sorted(hits: seq<Hit>): (r: seq<Hit>)
    ensures multiset(r) == multiset(hits) && |r| == |hits|
    ensures Ordered(r)
  {
    if hits == [] then []
    else
      var n := |hits| - 1;
      assert hits == hits[..n] + [hits[n]];
      var r := Insert(Sorted(hits[..n]), hits[n]);
      assert |r| == |multiset(r)|;
      r
  }

  function EffectiveLimit(limit: int, maxResults: int): nat {
    var asked: nat := if limit <= 0 then DEFAULT_LIMIT else limit;
    if 0 < maxResults < asked then maxResults else asked
  }

  function Top(hits: seq<Hit>, limit: nat): seq<Hit> {
    if |hits| > limit then Sorted(hits)[..limit] else Sorted(hits)
  }

  lemma CutContents(all: seq<Hit>, n: nat)
    requires n <= |all|
    ensures multiset(all[..n]) + multiset(all[n..]) == multiset(all)
  {
    assert all == all[..n] + all[n..];
  }

  lemma CutIsOutranked(all: seq<Hit>, n: nat)
    requires n <= |all| && Ordered(all)
    ensures Ordered(all[..n])
    ensures forall i, j | 0 <= i < n && 0 <= j < |all| - n :: !Outranks(all[n..][j], all[..n][i])
  {
    hide Outranks;
    forall i, j | 0 <= i < n && 0 <= j < |all| - n ensures !Outranks(all[n..][j], all[..n][i]) {
      assert AtLeast(all[i], all[n + j]);
    }
  }

  /**
   The list is ordered and as long as the cap allows; together with what was cut off it is all the
   hits, and nothing that was cut off outranks anything on the list.
   */
  lemma NoOmittedHitOutranks(hits: seq<Hit>, limit: nat) returns (cut: seq<Hit>)
    ensures var top := Top(hits, limit);
            && Ordered(top)
            && |top| == (if |hits| < limit then |hits| else limit)
            && multiset(top) + multiset(cut) == multiset(hits)
            && forall i, j | 0 <= i < |top| && 0 <= j < |cut| :: !Outranks(cut[j], top[i])
  {
    hide Outranks, Sorted;
    var all, n := Sorted(hits), |Top(hits, limit)|;
    cut := all[n..];
    assert Top(hits, limit) == all[..n];
    CutContents(all, n);
    CutIsOutranked(all, n);
  }

  // ---------------------------------------------------------------- scoring all documents

  function Boosted(score: real, titleHit: bool): real {
    if titleHit then score + 0.5 * score else score
  }

  /** Documents with score zero are left out. */
  function ScoredHits(log: real -> real, docs: seq<Doc>, terms: seq<string>, n: nat): seq<Hit>
    requires n <= |docs|
  {
    if n == 0 then []
    else
      var score := Score(log, docs, n - 1, terms);
      ScoredHits(log, docs, terms, n - 1)
      + if score == 0.0 then [] else [Hit(docs[n - 1].path, Boosted(score, docs[n - 1].titleHit))]
  }

  /** A document is a hit exactly when a word of the query occurs in it. */
  lemma {:induction false} HitsAreMatchingDocs(log: real -> real, docs: seq<Doc>, raw: seq<string>, n: nat, p: string)
    requires PositiveAboveOne(log) && Tokens(raw) && n <= |docs|
    ensures (exists h :: h in ScoredHits(log, docs, Terms(raw), n) && h.path == p)
            <==> exists i :: 0 <= i < n && docs[i].path == p
                             && exists t :: t in raw && Count(docs[i].tokens, t) > 0
  {
    hide Terms, Score, Count, Boosted;
    if n > 0 {
      HitsAreMatchingDocs(log, docs, raw, n - 1, p);
      PositiveIffSingleTermOccurs(log, docs, n - 1, raw);
      ScoreBounds(log, docs, n - 1, Terms(raw));
      var before, all := ScoredHits(log, docs, Terms(raw), n - 1), ScoredHits(log, docs, Terms(raw), n);
      assert forall h | h in before :: h in all;
      if Score(log, docs, n - 1, Terms(raw)) != 0.0 {
        assert all[|all| - 1].path == docs[n - 1].path;
      }
    }
  }

  function DfOf(df: map<string, nat>, term: string): nat {
    if term in df then df[term] else 0
  }

  /** First pass: token total and document frequencies; a term listed twice is counted once. */
  method CollectStats(docs: seq<Doc>, terms: seq<string>) returns (totalTokens: nat, df: map<string, nat>)
    ensures totalTokens == TotalTokens(docs)
    ensures forall t | t in terms :: DfOf(df, t) == DocFreq(docs, t)
  {
    totalTokens, df := 0, map[];
    for i := 0 to |docs|
      invariant totalTokens == TotalTokens(docs[..i])
      invariant forall t | t in terms :: DfOf(df, t) == DocFreq(docs[..i], t)
    {
      assert docs[..i + 1][..i] == docs[..i];
      totalTokens := totalTokens + |docs[i].tokens|;
      var counted: set<string> := {};
      for j := 0 to |terms|
        invariant forall t :: t in counted ==> t in terms[..j]
        invariant forall t | t in terms[..j] :: t in counted || TermFreq(docs[i].tokens, t) == 0
        invariant forall t | t in counted :: TermFreq(docs[i].tokens, t) > 0
        invariant forall t | t in terms :: DfOf(df, t) == DocFreq(docs[..i], t) + if t in counted then 1 else 0
      {
        var term := terms[j];
        assert terms[..j + 1] == terms[..j] + [term];
        var tf := CountTerm(docs[i].tokens, term);
        if term !in counted && tf > 0 {
          df := df[term := DfOf(df, term) + 1];
          counted := counted + {term};
        }
      }
      assert terms[..|terms|] == terms;
    }
    assert docs[..|docs|] == docs;
  }

  /** The documents of the walk that the scope lets through, in its order. */
  function InScope(walk: seq<Doc>, inScope: string -> bool): seq<Doc> {
    if walk == [] then []
    else
      var n := |walk| - 1;
      InScope(walk[..n], inScope) + if inScope(walk[n].path) then [walk[n]] else []
  }

  /** The search considers no more than so many of them. */
  function Considered(walk: seq<Doc>, inScope: string -> bool): seq<Doc> {
    var docs := InScope(walk, inScope);
    if |docs| > MAX_DOCS then docs[..MAX_DOCS] else docs
  }

  lemma {:induction false} InScopeGrows(walk: seq<Doc>, inScope: string -> bool, n: nat)
    requires n <= |walk|
    ensures InScope(walk[..n], inScope) <= InScope(walk, inScope)
  {
    if n == |walk| {
      assert walk[..n] == walk;
    } else {
      InScopeGrows(walk[..|walk| - 1], inScope, n);
      assert walk[..|walk| - 1][..n] == walk[..n];
    }
  }

  /** The walk stops as soon as the cap is reached. */
  method CollectDocs(walk: seq<Doc>, inScope: string -> bool) returns (docs: seq<Doc>)
    ensures docs == Considered(walk, inScope)
  {
    docs := [];
    for i := 0 to |walk|
      invariant docs == InScope(walk[..i], inScope) && |docs| <= MAX_DOCS
    {
      InScopeGrows(walk, inScope, i);
      if |docs| >= MAX_DOCS {
        return;
      }
      assert walk[..i + 1][..i] == walk[..i];
      if inScope(walk[i].path) {
        docs := docs + [walk[i]];
      }
    }
    assert walk[..|walk|] == walk;
  }

  /** The score of one document from the statistics of the first pass. */
  method ScoreDoc(log: real -> real, docs: seq<Doc>, i: nat, terms: seq<string>, totalTokens: nat,
                  df: map<string, nat>)
    returns (score: real)
    requires i < |docs| && totalTokens == TotalTokens(docs)
    requires forall t | t in terms :: DfOf(df, t) == DocFreq(docs, t)
    ensures score == Score(log, docs, i, terms)
  {
    hide TermFreq, TotalTokens, DocFreq, Idf;
    score := 0.0;
    for j := 0 to |terms|
      invariant score == Score(log, docs, i, terms[..j])
    {
      var term := terms[j];
      assert terms[..j + 1][..j] == terms[..j];
      var tf := CountTerm(docs[i].tokens, term);
      if tf == 0 {
        continue;
      }
      AverageIsPositive(docs, i, term);
      SaturationIsPositive(|docs[i].tokens|, AvgLength(docs));
      var avgDL := totalTokens as real / |docs| as real;
      var idf := Idf(log, |docs|, DfOf(df, term));
      var tfNorm := TfNorm(tf, |docs[i].tokens|, avgDL);
      score := score + idf * tfNorm;
    }
    assert terms[..|terms|] == terms;
  }

  /** Both passes, the sort and the cap. */
  method SearchBM25(log: real -> real, walk: seq<Doc>, inScope: string -> bool, raw: seq<string>, limit: int,
                    maxResults: int)
    returns (results: seq<Hit>)
    requires Tokens(raw)
    ensures var docs := Considered(walk, inScope);
            results == Top(ScoredHits(log, docs, Terms(raw), |docs|), EffectiveLimit(limit, maxResults))
  {
    hide TermFreq, TotalTokens, DocFreq, Sorted, Terms, InScope, Considered, Score, DfOf;
    var docs := CollectDocs(walk, inScope);
    var terms := BuildTerms(raw);
    var totalTokens, df := CollectStats(docs, terms);
    results := [];
    for i := 0 to |docs|
      invariant results == ScoredHits(log, docs, terms, i)
    {
      var score := ScoreDoc(log, docs, i, terms, totalTokens, df);
      if score == 0.0 {
        continue;
      }
      if docs[i].titleHit {
        score := score + 0.5 * score;
      }
      results := results + [Hit(docs[i].path, score)];
    }
    var sorted := Sorted(results);
    var cap := EffectiveLimit(limit, maxResults);
    results := if |sorted| > cap then sorted[..cap] else sorted;
  }
}
