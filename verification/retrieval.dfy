/** `ContextRetriever` of aimemo/retrieval.py: candidates from the store are
    re-ranked by a blend of their search position and their recency, sorted
    stably in descending score order and cut to the limit; memories are
    rendered as a header and one bullet line each. */
module Retrieval {
  import opened Wrappers
  import opened Text
  import opened Records

  // ---------------------------------------------------------------------------
  // Scores

  /** `candidates.index(mem)`: the first position of an equal record. */
  function IndexOf(s: seq<MemoryRecord>, m: MemoryRecord): (i: nat)
    requires m in s
    ensures i < |s| && s[i] == m && m !in s[..i]
  {
    if s[0] == m then 0
    else
      assert m in s[1..];
      var i := IndexOf(s[1..], m);
      assert s[..i + 1] == [s[0]] + s[1..][..i];
      i + 1
  }

  /** The positional score `1 - i/n` of the candidate at position `i` of
      `n`: in (0, 1], and 1 exactly for the first candidate. */
  function RankScore(i: nat, n: nat): (r: real)
    requires i < n
    ensures 0.0 < r <= 1.0
    ensures r == 1.0 <==> i == 0
  {
    var q := (i as real) / (n as real);
    assert q * (n as real) == i as real;
    assert (1.0 - q) * (n as real) == (n - i) as real;
    PositiveFactor(1.0 - q, n as real);
    1.0 - q
  }

  /** The positional score strictly falls with the position. */
  lemma RankScoreFalls(i: nat, j: nat, n: nat)
    requires i < j < n
    ensures RankScore(j, n) < RankScore(i, n)
  {
    var q := (i as real) / (n as real);
    var r := (j as real) / (n as real);
    assert q * (n as real) == i as real;
    assert r * (n as real) == j as real;
    assert (r - q) * (n as real) == (j - i) as real;
    PositiveFactor(r - q, n as real);
  }

  /** A product that is positive with a positive factor has a positive
      other factor. */
  lemma PositiveFactor(a: real, b: real)
    requires b > 0.0 && a * b > 0.0
    ensures a > 0.0
  {
  }

  /** The recency score when the decay computation fails. */
  const NeutralRecency: real := 0.5

  /** The recency score of a timestamp. `recency` stands for the clock and the
      decay `1 / (1 + log1p(age_hours))`: it yields None exactly when that
      computation raises ValueError or TypeError, which the retriever catches:
      a timestamp `datetime.fromisoformat` rejects, an offset-aware timestamp
      subtracted from the naive current time, or a timestamp an hour or more
      in the future, outside the domain of `log1p`. */
  function RecencyScore(recency: string -> Option<real>, timestamp: string): (r: real)
    ensures recency(timestamp).None? ==> r == NeutralRecency
    ensures recency(timestamp).Some? ==> r == recency(timestamp).value
  {
    recency(timestamp).GetOr(NeutralRecency)
  }

  /** The final score of a candidate record: its positional score and its
      recency score blended by the recency weight `w`. */
  function FinalScore(cands: seq<MemoryRecord>, recency: string -> Option<real>, w: real, m: MemoryRecord): (r: real)
    requires m in cands
    ensures w == 0.0 ==> r == RankScore(IndexOf(cands, m), |cands|)
    ensures w == 1.0 ==> r == RecencyScore(recency, m.timestamp)
    ensures 0.0 <= w <= 1.0 ==> Between(r, RankScore(IndexOf(cands, m), |cands|), RecencyScore(recency, m.timestamp))
  {
    BlendBetween(RankScore(IndexOf(cands, m), |cands|), RecencyScore(recency, m.timestamp), w);
    RankScore(IndexOf(cands, m), |cands|) * (1.0 - w) + RecencyScore(recency, m.timestamp) * w
  }

  /** `x` lies between `a` and `b`, whichever is larger. */
  predicate Between(x: real, a: real, b: real) {
    (a <= x <= b) || (b <= x <= a)
  }

  /** A blend `a * (1 - w) + b * w` with a weight in [0, 1] lies between its
      two scores. */
  lemma BlendBetween(a: real, b: real, w: real)
    ensures 0.0 <= w <= 1.0 ==> Between(a * (1.0 - w) + b * w, a, b)
  {
    if 0.0 <= w <= 1.0 {
      var d := if a <= b then b - a else a - b;
      NonNegativeProduct(d, w);
      NonNegativeProduct(d, 1.0 - w);
      assert a * (1.0 - w) + b * w == a + (b - a) * w;
    }
  }

  lemma NonNegativeProduct(x: real, y: real)
    requires x >= 0.0 && y >= 0.0
    ensures x * y >= 0.0
  {
  }

  /** A candidate with its final score and its position in the store's list. */
  datatype Scored = Scored(score: real, pos: nat, mem: MemoryRecord)

  /** The scored candidates from position `i` on, in store order. */
  function ScoreFrom(cands: seq<MemoryRecord>, recency: string -> Option<real>, w: real, i: nat): (r: seq<Scored>)
    requires i <= |cands|
    ensures |r| == |cands| - i
    ensures forall k :: 0 <= k < |r| ==> r[k] == Scored(FinalScore(cands, recency, w, cands[i + k]), i + k, cands[i + k])
    decreases |cands| - i
  {
    if i == |cands| then []
    else [Scored(FinalScore(cands, recency, w, cands[i]), i, cands[i])] + ScoreFrom(cands, recency, w, i + 1)
  }

  // ---------------------------------------------------------------------------
  // Stable descending sort

  /** Scores never rise along `s`. */
  predicate Descending(s: seq<Scored>) {
    forall i, j :: 0 <= i < j < |s| ==> s[i].score >= s[j].score
  }

  /** Equal scores keep their store order. */
  predicate StableTies(s: seq<Scored>) {
    forall i, j :: 0 <= i < j < |s| && s[i].score == s[j].score ==> s[i].pos < s[j].pos
  }

  /** Positions strictly increase along `s`. */
  predicate InStoreOrder(s: seq<Scored>) {
    forall i, j :: 0 <= i < j < |s| ==> s[i].pos < s[j].pos
  }

  /** Inserts `x` after every element that scores at least as much. */
  function Insert(x: Scored, s: seq<Scored>): (r: seq<Scored>)
    ensures |r| == |s| + 1
    ensures multiset(r) == multiset(s) + multiset{x}
    decreases |s|
  {
    if |s| == 0 || x.score > s[0].score then [x] + s
    else
      assert s == [s[0]] + s[1..];
      [s[0]] + Insert(x, s[1..])
  }

  /** `list.sort(key=score, reverse=True)`: a stable sort into descending
      score order, as insertion of each element in turn. */
  function SortDesc(xs: seq<Scored>): (r: seq<Scored>)
    ensures |r| == |xs|
    ensures multiset(r) == multiset(xs)
    decreases |xs|
  {
    if |xs| == 0 then []
    else
      assert xs == xs[..|xs| - 1] + [xs[|xs| - 1]];
      Insert(xs[|xs| - 1], SortDesc(xs[..|xs| - 1]))
  }

  lemma {:induction false} InsertDescending(x: Scored, s: seq<Scored>)
    requires Descending(s)
    ensures Descending(Insert(x, s))
    decreases |s|
  {
    if |s| > 0 && x.score <= s[0].score {
      var rest := Insert(x, s[1..]);
      InsertDescending(x, s[1..]);
      forall k | 0 <= k < |rest|
        ensures rest[k].score <= s[0].score
      {
        assert rest[k] in multiset(rest);
      }
    }
  }

  lemma {:induction false} InsertStable(x: Scored, s: seq<Scored>)
    requires Descending(s) && StableTies(s)
    requires forall k :: 0 <= k < |s| ==> s[k].pos < x.pos
    ensures StableTies(Insert(x, s))
    decreases |s|
  {
    if |s| > 0 && x.score <= s[0].score {
      var rest := Insert(x, s[1..]);
      InsertStable(x, s[1..]);
      forall k | 0 <= k < |rest| && rest[k].score == s[0].score
        ensures s[0].pos < rest[k].pos
      {
        assert rest[k] in multiset(rest);
        if rest[k] != x {
          var m :| 0 <= m < |s[1..]| && s[1..][m] == rest[k];
          assert s[m + 1] == rest[k];
        }
      }
    }
  }

  /** The sort yields descending scores, and, on a list in store order, keeps
      equal scores in store order. */
  lemma {:induction false} SortDescSpec(xs: seq<Scored>)
    ensures Descending(SortDesc(xs))
    ensures InStoreOrder(xs) ==> StableTies(SortDesc(xs))
    decreases |xs|
  {
    if |xs| > 0 {
      var init, x := xs[..|xs| - 1], xs[|xs| - 1];
      var sorted := SortDesc(init);
      SortDescSpec(init);
      InsertDescending(x, sorted);
      if InStoreOrder(xs) {
        forall k | 0 <= k < |sorted|
          ensures sorted[k].pos < x.pos
        {
          assert sorted[k] in multiset(init);
          var m :| 0 <= m < |init| && init[m] == sorted[k];
        }
        InsertStable(x, sorted);
      }
    }
  }

  /** Scores strictly fall along `s`. */
  predicate Falling(s: seq<Scored>) {
    forall i, j :: 0 <= i < j < |s| ==> s[i].score > s[j].score
  }

  /** A list whose scores strictly fall is already sorted. */
  lemma {:induction false} SortDescKeepsFalling(xs: seq<Scored>)
    requires Falling(xs)
    ensures SortDesc(xs) == xs
    decreases |xs|
  {
    if |xs| > 0 {
      var init, x := xs[..|xs| - 1], xs[|xs| - 1];
      FallingSplit(xs);
      SortDescKeepsFalling(init);
      InsertLowest(x, init);
      SortDescLast(xs);
    }
  }

  /** Dropping the last element of a falling list leaves a falling list that
      scores above that element throughout. */
  lemma FallingSplit(xs: seq<Scored>)
    requires Falling(xs) && |xs| > 0
    ensures Falling(xs[..|xs| - 1])
    ensures forall k :: 0 <= k < |xs| - 1 ==> xs[|xs| - 1].score < xs[k].score
    ensures xs[..|xs| - 1] + [xs[|xs| - 1]] == xs
  {
  }

  /** An element scoring below all others is inserted last. */
  lemma {:induction false} InsertLowest(x: Scored, s: seq<Scored>)
    requires forall k :: 0 <= k < |s| ==> x.score < s[k].score
    ensures Insert(x, s) == s + [x]
    decreases |s|
  {
    if |s| > 0 {
      InsertLowest(x, s[1..]);
      assert s == [s[0]] + s[1..];
    }
  }

  // ---------------------------------------------------------------------------
  // Re-ranking

  /** The length of Python's `s[:limit]` for a list of length `n`. */
  function SliceLen(n: nat, limit: int): (k: nat)
    ensures k <= n
    ensures limit >= 0 ==> k == if limit < n then limit else n
    ensures limit < 0 ==> k == if n + limit > 0 then n + limit else 0
  {
    if limit >= 0 then (if limit < n then limit else n)
    else if n + limit > 0 then n + limit else 0
  }

  /** The records of a scored list. */
  function Mems(s: seq<Scored>): (r: seq<MemoryRecord>)
    ensures |r| == |s|
  {
    seq(|s|, k requires 0 <= k < |s| => s[k].mem)
  }

  /** `scored_candidates` after the sort. */
  function Ranked(cands: seq<MemoryRecord>, recency: string -> Option<real>, w: real): (r: seq<Scored>)
    ensures |r| == |cands|
  {
    SortDesc(ScoreFrom(cands, recency, w, 0))
  }

  /** The re-ranked list: the records of the first `limit` scored candidates,
      the slice taken as Python takes `[:limit]`. */
  function Rerank(cands: seq<MemoryRecord>, recency: string -> Option<real>, w: real, limit: int): (r: seq<MemoryRecord>)
    ensures |r| == SliceLen(|cands|, limit)
  {
    var ranked := Ranked(cands, recency, w);
    Mems(ranked[..SliceLen(|ranked|, limit)])
  }

  /** `ContextRetriever.get_relevant_context`: the store is asked for three
      times `limit` candidates of the namespace and category, without tags;
      no candidate means no result, and otherwise the result is the
      re-ranked list. */
  function GetRelevantContext(store: Store, recency: string -> Option<real>, query: string,
                              namespace: string, limit: int, category: Option<string>, w: real): (r: seq<MemoryRecord>)
    ensures var cands := store(SearchRequest(query, namespace, limit * 3, None, category));
      |r| == SliceLen(|cands|, limit) && (|cands| == 0 ==> r == [])
        && (|cands| > 0 ==> r == Rerank(cands, recency, w, limit))
  {
    var cands := store(SearchRequest(query, namespace, limit * 3, None, category));
    if |cands| == 0 then [] else Rerank(cands, recency, w, limit)
  }

  // Facts about the scored list

  /** Every scored entry carries the final score of its record, and the record
      at its position. */
  ghost predicate WellScored(cands: seq<MemoryRecord>, recency: string -> Option<real>, w: real, s: seq<Scored>) {
    forall k :: 0 <= k < |s| ==>
      s[k].pos < |cands| && s[k].mem == cands[s[k].pos]
        && s[k].score == FinalScore(cands, recency, w, s[k].mem)
  }

  /** The sorted list is a permutation of the store-ordered one: so it holds
      every candidate position once, with its record and score. */
  lemma RankedSpec(cands: seq<MemoryRecord>, recency: string -> Option<real>, w: real)
    ensures var ranked := Ranked(cands, recency, w);
      multiset(ranked) == multiset(ScoreFrom(cands, recency, w, 0))
        && WellScored(cands, recency, w, ranked)
        && Descending(ranked) && StableTies(ranked)
  {
    var xs := ScoreFrom(cands, recency, w, 0);
    var ranked := Ranked(cands, recency, w);
    SortDescSpec(xs);
    forall k | 0 <= k < |ranked|
      ensures ranked[k].pos < |cands| && ranked[k].mem == cands[ranked[k].pos]
      ensures ranked[k].score == FinalScore(cands, recency, w, ranked[k].mem)
    {
      assert ranked[k] in multiset(xs);
    }
  }

  /** `Mems` distributes over concatenation. */
  lemma MemsAppend(a: seq<Scored>, b: seq<Scored>)
    ensures Mems(a + b) == Mems(a) + Mems(b)
  {
  }

  /** The records of an insertion are those of the list plus the inserted
      one. */
  lemma {:induction false} MemsInsert(x: Scored, s: seq<Scored>)
    ensures multiset(Mems(Insert(x, s))) == multiset(Mems(s)) + multiset{x.mem}
    decreases |s|
  {
    if |s| == 0 || x.score > s[0].score {
      MemsAppend([x], s);
    } else {
      var rest := Insert(x, s[1..]);
      MemsInsert(x, s[1..]);
      MemsAppend([s[0]], rest);
      MemsAppend([s[0]], s[1..]);
      assert [s[0]] + s[1..] == s;
    }
  }

  /** The records of a sorted list are those of the input. */
  lemma {:induction false} MemsSort(xs: seq<Scored>)
    ensures multiset(Mems(SortDesc(xs))) == multiset(Mems(xs))
    decreases |xs|
  {
    if |xs| > 0 {
      var init, x := xs[..|xs| - 1], xs[|xs| - 1];
      SortDescLast(xs);
      MemsSort(init);
      MemsInsert(x, SortDesc(init));
      MemsLast(xs);
    }
  }

  lemma SortDescLast(xs: seq<Scored>)
    requires |xs| > 0
    ensures SortDesc(xs) == Insert(xs[|xs| - 1], SortDesc(xs[..|xs| - 1]))
  {
  }

  lemma MemsLast(xs: seq<Scored>)
    requires |xs| > 0
    ensures multiset(Mems(xs)) == multiset(Mems(xs[..|xs| - 1])) + multiset{xs[|xs| - 1].mem}
  {
    var init, x := xs[..|xs| - 1], xs[|xs| - 1];
    assert init + [x] == xs;
    MemsAppend(init, [x]);
    assert Mems([x]) == [x.mem];
  }

  /** The records of the sorted list are exactly the candidates. */
  lemma RankedRecords(cands: seq<MemoryRecord>, recency: string -> Option<real>, w: real)
    ensures multiset(Mems(Ranked(cands, recency, w))) == multiset(cands)
  {
    var xs := ScoreFrom(cands, recency, w, 0);
    MemsSort(xs);
    assert Mems(xs) == cands;
  }

  // ---------------------------------------------------------------------------
  // Properties of the re-ranked list

  /** Every result is a candidate, taken no more often than the store listed
      it; with a non-negative limit there are `min(limit, len(candidates))`
      results. */
  lemma RerankMembers(cands: seq<MemoryRecord>, recency: string -> Option<real>, w: real, limit: int)
    ensures multiset(Rerank(cands, recency, w, limit)) <= multiset(cands)
    ensures forall k :: 0 <= k < |Rerank(cands, recency, w, limit)| ==> Rerank(cands, recency, w, limit)[k] in cands
    ensures limit >= 0 ==> |Rerank(cands, recency, w, limit)| <= limit
  {
    var ranked := Ranked(cands, recency, w);
    var r := Rerank(cands, recency, w, limit);
    RankedRecords(cands, recency, w);
    MemsPrefix(ranked, SliceLen(|ranked|, limit));
    forall k | 0 <= k < |r|
      ensures r[k] in cands
    {
      assert r[k] in multiset(r);
    }
  }

  /** The records of a prefix are among the records of the whole list. */
  lemma MemsPrefix(s: seq<Scored>, n: nat)
    requires n <= |s|
    ensures multiset(Mems(s[..n])) <= multiset(Mems(s))
  {
    assert Mems(s) == Mems(s[..n]) + Mems(s[n..]);
  }

  /** Results come in non-increasing final score. */
  lemma RerankOrdered(cands: seq<MemoryRecord>, recency: string -> Option<real>, w: real, limit: int, i: nat, j: nat)
    requires i < j < |Rerank(cands, recency, w, limit)|
    ensures Rerank(cands, recency, w, limit)[i] in cands && Rerank(cands, recency, w, limit)[j] in cands
    ensures FinalScore(cands, recency, w, Rerank(cands, recency, w, limit)[i])
      >= FinalScore(cands, recency, w, Rerank(cands, recency, w, limit)[j])
  {
    RankedSpec(cands, recency, w);
  }

  /** Equal final scores keep the store's order: of two distinct-position
      results with the same score, the one the store listed first comes
      first. */
  lemma RerankStable(cands: seq<MemoryRecord>, recency: string -> Option<real>, w: real, limit: int, i: nat, j: nat)
    requires i < j < |Rerank(cands, recency, w, limit)|
    requires forall a, b :: 0 <= a < b < |cands| ==> cands[a] != cands[b]
    ensures Rerank(cands, recency, w, limit)[i] in cands && Rerank(cands, recency, w, limit)[j] in cands
    ensures FinalScore(cands, recency, w, Rerank(cands, recency, w, limit)[i])
        == FinalScore(cands, recency, w, Rerank(cands, recency, w, limit)[j])
      ==> IndexOf(cands, Rerank(cands, recency, w, limit)[i]) < IndexOf(cands, Rerank(cands, recency, w, limit)[j])
  {
    var ranked := Ranked(cands, recency, w);
    RankedSpec(cands, recency, w);
    DistinctIndexOf(cands, ranked[i].pos);
    DistinctIndexOf(cands, ranked[j].pos);
  }

  /** In a list without repeats, a record's first position is its position. */
  lemma DistinctIndexOf(cands: seq<MemoryRecord>, p: nat)
    requires p < |cands|
    requires forall a, b :: 0 <= a < b < |cands| ==> cands[a] != cands[b]
    ensures IndexOf(cands, cands[p]) == p
  {
  }

  /** The results are the best-scored candidates: a candidate left out scores
      no higher than any result. */
  lemma RerankTopK(cands: seq<MemoryRecord>, recency: string -> Option<real>, w: real, limit: int, m: MemoryRecord, i: nat)
    requires m in cands && m !in Rerank(cands, recency, w, limit)
    requires i < |Rerank(cands, recency, w, limit)|
    ensures Rerank(cands, recency, w, limit)[i] in cands
    ensures FinalScore(cands, recency, w, m) <= FinalScore(cands, recency, w, Rerank(cands, recency, w, limit)[i])
  {
    var ranked := Ranked(cands, recency, w);
    RankedSpec(cands, recency, w);
    RankedRecords(cands, recency, w);
    assert m in multiset(Mems(ranked));
    var j := DroppedPosition(ranked, SliceLen(|ranked|, limit), m);
  }

  /** Ties at the cut go to the store's order: a candidate left out that
      scores the same as a result first appears after it in the store's
      list. */
  lemma RerankTieAtCut(cands: seq<MemoryRecord>, recency: string -> Option<real>, w: real, limit: int, m: MemoryRecord, i: nat)
    requires m in cands && m !in Rerank(cands, recency, w, limit)
    requires i < |Rerank(cands, recency, w, limit)|
    ensures Rerank(cands, recency, w, limit)[i] in cands
    ensures FinalScore(cands, recency, w, m) == FinalScore(cands, recency, w, Rerank(cands, recency, w, limit)[i])
      ==> IndexOf(cands, Rerank(cands, recency, w, limit)[i]) < IndexOf(cands, m)
  {
    var ranked := Ranked(cands, recency, w);
    var n := SliceLen(|ranked|, limit);
    var xs := ScoreFrom(cands, recency, w, 0);
    RankedSpec(cands, recency, w);
    // The entry for m's first position sits at or past the cut.
    var p := IndexOf(cands, m);
    assert xs[p] in multiset(ranked);
    var k :| 0 <= k < |ranked| && ranked[k] == xs[p];
    PrefixMembers(ranked, n);
    assert n <= k;
    // Result i's record first appears no later than its own position.
    var r := ranked[i];
    assert Mems(ranked[..n])[i] == r.mem;
    assert IndexOf(cands, r.mem) <= r.pos;
  }

  /** Every record of a prefix of a list is among the prefix's records. */
  lemma PrefixMembers(s: seq<Scored>, n: nat)
    requires n <= |s|
    ensures forall k :: 0 <= k < n ==> s[k].mem in Mems(s[..n])
  {
    forall k | 0 <= k < n
      ensures s[k].mem in Mems(s[..n])
    {
      assert Mems(s[..n])[k] == s[k].mem;
    }
  }

  /** A record of a list left out of its prefix sits past the prefix. */
  lemma DroppedPosition(s: seq<Scored>, n: nat, m: MemoryRecord) returns (j: nat)
    requires n <= |s| && m in Mems(s) && m !in Mems(s[..n])
    ensures n <= j < |s| && s[j].mem == m
  {
    forall t | 0 <= t < n
      ensures Mems(s)[t] == Mems(s[..n])[t]
    {
    }
    j :| 0 <= j < |s| && Mems(s)[j] == m;
  }

  /** With recency weight 0 and no repeated records, re-ranking keeps the
      store's order: the result is the first `limit` candidates. */
  lemma RerankWithoutRecency(cands: seq<MemoryRecord>, recency: string -> Option<real>, limit: int)
    requires forall a, b :: 0 <= a < b < |cands| ==> cands[a] != cands[b]
    ensures Rerank(cands, recency, 0.0, limit) == cands[..SliceLen(|cands|, limit)]
  {
    var xs := ScoreFrom(cands, recency, 0.0, 0);
    var k := SliceLen(|cands|, limit);
    ScoresFallWithoutRecency(cands, recency);
    SortDescKeepsFalling(xs);
    MemsScoreFrom(cands, recency, 0.0);
    MemsTake(xs, k);
    calc {
      Rerank(cands, recency, 0.0, limit);
      Mems(Ranked(cands, recency, 0.0)[..k]);
      Mems(xs[..k]);
    }
  }

  /** Without repeats and with recency weight 0, scores strictly fall along
      the store's order. */
  lemma ScoresFallWithoutRecency(cands: seq<MemoryRecord>, recency: string -> Option<real>)
    requires forall a, b :: 0 <= a < b < |cands| ==> cands[a] != cands[b]
    ensures Falling(ScoreFrom(cands, recency, 0.0, 0))
  {
    CandidateScoresFall(cands, recency);
  }

  lemma CandidateScoresFall(cands: seq<MemoryRecord>, recency: string -> Option<real>)
    requires forall a, b :: 0 <= a < b < |cands| ==> cands[a] != cands[b]
    ensures forall a, b :: 0 <= a < b < |cands| ==>
      FinalScore(cands, recency, 0.0, cands[a]) > FinalScore(cands, recency, 0.0, cands[b])
  {
    forall a, b | 0 <= a < b < |cands|
      ensures FinalScore(cands, recency, 0.0, cands[a]) > FinalScore(cands, recency, 0.0, cands[b])
    {
      DistinctIndexOf(cands, a);
      DistinctIndexOf(cands, b);
      RankScoreFalls(a, b, |cands|);
      PositionalOnly(cands, recency, cands[a]);
      PositionalOnly(cands, recency, cands[b]);
    }
  }

  /** The scored list holds the candidates in store order. */
  lemma MemsScoreFrom(cands: seq<MemoryRecord>, recency: string -> Option<real>, w: real)
    ensures Mems(ScoreFrom(cands, recency, w, 0)) == cands
  {
  }

  /** `Mems` commutes with taking a prefix. */
  lemma MemsTake(s: seq<Scored>, n: nat)
    requires n <= |s|
    ensures Mems(s[..n]) == Mems(s)[..n]
  {
  }

  /** With recency weight 0 the final score is the positional score. */
  lemma PositionalOnly(cands: seq<MemoryRecord>, recency: string -> Option<real>, m: MemoryRecord)
    requires m in cands
    ensures FinalScore(cands, recency, 0.0, m) == RankScore(IndexOf(cands, m), |cands|)
  {
  }

  /** Under a namespace-scoped store, every result belongs to the namespace
      asked about. */
  lemma GetRelevantContextScoped(store: Store, recency: string -> Option<real>, query: string,
                                 namespace: string, limit: int, category: Option<string>, w: real)
    requires Scoped(store)
    ensures forall k :: 0 <= k < |GetRelevantContext(store, recency, query, namespace, limit, category, w)| ==>
      GetRelevantContext(store, recency, query, namespace, limit, category, w)[k].namespace == namespace
  {
    var cands := store(SearchRequest(query, namespace, limit * 3, None, category));
    if |cands| > 0 {
      RerankMembers(cands, recency, w, limit);
    }
  }

  // ---------------------------------------------------------------------------
  // Formatting

  const Header: string := "Previous context:"

  /** `[CATEGORY] ` for a truthy category, nothing otherwise. */
  function CategoryPrefix(category: string): (r: string)
    ensures r == "" <==> category == ""
    ensures '\n' !in category ==> '\n' !in r
  {
    UpperKeepsNonLetters(category, '\n');
    if category != "" then "[" + Upper(category) + "] " else ""
  }

  /** One memory's line: a bullet marker, then the content last; a memory
      without newlines gives a single line. */
  function Bullet(m: MemoryRecord): (r: string)
    ensures "- " <= r
    ensures |r| >= |m.content| + 2 && r[|r| - |m.content|..] == m.content
    ensures '\n' !in m.content && '\n' !in m.category ==> '\n' !in r
  {
    "- " + CategoryPrefix(m.category) + m.content
  }

  function Bullets(ms: seq<MemoryRecord>): (r: seq<string>)
    ensures |r| == |ms|
    ensures forall k :: 0 <= k < |ms| ==> r[k] == Bullet(ms[k])
  {
    if |ms| == 0 then [] else [Bullet(ms[0])] + Bullets(ms[1..])
  }

  /** `ContextRetriever.format_context`: nothing for no memories, otherwise
      the header and one bullet per memory, joined by newlines. */
  function FormatContext(ms: seq<MemoryRecord>): (r: string)
    ensures r == "" <==> |ms| == 0
  {
    if |ms| == 0 then ""
    else
      JoinIsEmpty("\n", [Header] + Bullets(ms));
      Join("\n", [Header] + Bullets(ms))
  }

  /** A bullet is "- ", then "[CATEGORY] " with the category upper-cased when
      it is truthy, then the content; so it always ends with the content, and
      the category adds its own length plus three characters. */
  lemma BulletShape(m: MemoryRecord)
    ensures m.category == "" ==> Bullet(m) == "- " + m.content
    ensures m.category != "" ==> Bullet(m) == "- [" + Upper(m.category) + "] " + m.content
    ensures Bullet(m)[|Bullet(m)| - |m.content|..] == m.content
    ensures |Bullet(m)| == 2 + |m.content| + (if m.category == "" then 0 else |m.category| + 3)
  {
  }

  /** Splitting the formatted context at newlines gives back the header and
      one line per memory, in order, provided no memory spans lines. */
  lemma FormatContextLines(ms: seq<MemoryRecord>)
    requires |ms| > 0
    requires forall k :: 0 <= k < |ms| ==> '\n' !in ms[k].content && '\n' !in ms[k].category
    ensures Split(FormatContext(ms), '\n') == [Header] + Bullets(ms)
    ensures |Split(FormatContext(ms), '\n')| == |ms| + 1
  {
    var lines := [Header] + Bullets(ms);
    forall k | 0 <= k < |lines|
      ensures '\n' !in lines[k]
    {
      if k > 0 {
        assert lines[k] == Bullet(ms[k - 1]);
      }
    }
    SplitJoin(lines, '\n');
  }

  /** The formatted context opens with the header. */
  lemma FormatContextHeader(ms: seq<MemoryRecord>)
    requires |ms| > 0
    ensures Header <= FormatContext(ms)
  {
    JoinStartsWithFirst("\n", [Header] + Bullets(ms));
  }
}
