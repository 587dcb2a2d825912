/**
 * Choosing which search hits ground the answer: the hits whose similarity
 * score reaches the threshold, in search order, or the first hit alone when
 * none does.
 */
module Retrieval {

  /** One search hit: the position of a chunk in the index and its inner-product score. */
  datatype Hit = Hit(id: nat, score: real)

  /** The relevance threshold; the comparison against it is inclusive. */
  const MinScore: real := 0.5

  /** The number of neighbours asked of the index for each query. */
  const TopK: nat := 5

  predicate Passes(h: Hit) {
    h.score >= MinScore
  }

  /** Some hit reaches the threshold. */
  predicate AnyPasses(hits: seq<Hit>) {
    exists i :: 0 <= i < |hits| && Passes(hits[i])
  }

  /** Scores never increase along the hits, as the index returns them. */
  predicate SortedByScore(hits: seq<Hit>) {
    forall i, j :: 0 <= i < j < |hits| ==> hits[i].score >= hits[j].score
  }

  /** `a` is `b` with some elements left out, the rest kept in order and each used once. */
  predicate IsSubsequence<T(==)>(a: seq<T>, b: seq<T>)
    decreases |b|
  {
    if a == [] then true
    else if b == [] then false
    else (a[0] == b[0] && IsSubsequence(a[1..], b[1..])) || IsSubsequence(a, b[1..])
  }

  /**
   * The comprehension `[(i, s) for i, s in zip(ids, scores) if s >= 0.5]`
   * of script.py: a hit is kept exactly when it passes, in search order.
   */
  function Passing(hits: seq<Hit>): (r: seq<Hit>)
    ensures |r| <= |hits|
    ensures forall h :: h in r <==> h in hits && Passes(h)
  {
    if hits == [] then []
    else (if Passes(hits[0]) then [hits[0]] else []) + Passing(hits[1..])
  }

  /** No passing hit is dropped and none is repeated: each is kept exactly as often as it occurs. */
  lemma {:induction false} PassingCounts(hits: seq<Hit>)
    ensures forall h :: multiset(Passing(hits))[h] == if Passes(h) then multiset(hits)[h] else 0
  {
    if hits != [] {
      PassingCounts(hits[1..]);
      assert hits == [hits[0]] + hits[1..];
    }
  }

  /** The passing hits keep the order of the search. */
  lemma {:induction false} PassingIsSubsequence(hits: seq<Hit>)
    ensures IsSubsequence(Passing(hits), hits)
  {
    if hits != [] {
      PassingIsSubsequence(hits[1..]);
      var rest := Passing(hits[1..]);
      if Passes(hits[0]) {
        assert Passing(hits) == [hits[0]] + rest;
        assert ([hits[0]] + rest)[1..] == rest;
      } else {
        assert Passing(hits) == rest;
        if rest != [] {
          assert IsSubsequence(rest, hits[1..]);
        }
      }
    }
  }

  /** Some hit is kept exactly when some hit reaches the threshold. */
  lemma PassingNonEmpty(hits: seq<Hit>)
    ensures Passing(hits) != [] <==> AnyPasses(hits)
  {
    if AnyPasses(hits) {
      var i :| 0 <= i < |hits| && Passes(hits[i]);
      assert hits[i] in Passing(hits);
    }
  }

  /**
   * The candidate selection of script.py: keep the passing hits, or, when
   * none passes, only the first hit (the best one, as the index returns hits
   * best first).
   */
  function Select(hits: seq<Hit>): (r: seq<Hit>)
    requires |hits| > 0
    ensures 1 <= |r| <= |hits|
    ensures IsSubsequence(r, hits)
    ensures AnyPasses(hits) ==> forall i :: 0 <= i < |r| ==> Passes(r[i])
    ensures AnyPasses(hits) ==> forall h :: multiset(r)[h] == if Passes(h) then multiset(hits)[h] else 0
    ensures !AnyPasses(hits) ==> r == [hits[0]]
  {
    PassingIsSubsequence(hits);
    PassingNonEmpty(hits);
    PassingCounts(hits);
    var candidates := Passing(hits);
    if candidates == [] then
      assert IsSubsequence([hits[0]], hits) by {
        assert [hits[0]][1..] == [];
      }
      [hits[0]]
    else
      assert forall i :: 0 <= i < |candidates| ==> candidates[i] in candidates;
      candidates
  }

  /** Every selected hit is one of the search hits. */
  lemma {:induction false} SubsequenceMembers<T>(a: seq<T>, b: seq<T>)
    requires IsSubsequence(a, b)
    ensures forall x :: x in a ==> x in b
    decreases |b|
  {
    if a != [] && b != [] {
      if a[0] == b[0] && IsSubsequence(a[1..], b[1..]) {
        SubsequenceMembers(a[1..], b[1..]);
        assert a == [a[0]] + a[1..];
      } else {
        SubsequenceMembers(a, b[1..]);
      }
    }
  }

  /** The selection never leaves the search results and never grows past the neighbours asked for. */
  lemma SelectedAreHits(hits: seq<Hit>)
    requires 0 < |hits| <= TopK
    ensures forall h :: h in Select(hits) ==> h in hits
    ensures 1 <= |Select(hits)| <= TopK
  {
    SubsequenceMembers(Select(hits), hits);
  }

  /** A hit scoring exactly the threshold is selected: the comparison is inclusive. */
  lemma ThresholdIsInclusive(hits: seq<Hit>, i: nat)
    requires i < |hits| && hits[i].score == MinScore
    ensures hits[i] in Select(hits)
  {
    assert AnyPasses(hits);
    assert multiset(hits)[hits[i]] > 0;
  }

  /** The hits after the first of a best-first sequence are best first too. */
  lemma SortedTail(hits: seq<Hit>)
    requires hits != [] && SortedByScore(hits)
    ensures SortedByScore(hits[1..])
  {
    var tail := hits[1..];
    forall i, j | 0 <= i < j < |tail| ensures tail[i].score >= tail[j].score {
      assert tail[i] == hits[i + 1] && tail[j] == hits[j + 1];
    }
  }

  /** When the best hit fails the threshold, every hit does. */
  lemma SortedHeadFails(hits: seq<Hit>)
    requires hits != [] && SortedByScore(hits) && !Passes(hits[0])
    ensures !AnyPasses(hits)
  {
    forall j | 0 <= j < |hits| ensures !Passes(hits[j]) {
      assert j == 0 || hits[0].score >= hits[j].score;
    }
  }

  /** When hits come best first, the passing ones are a prefix of them. */
  lemma {:induction false} SortedPassingIsPrefix(hits: seq<Hit>)
    requires SortedByScore(hits)
    ensures Passing(hits) == hits[..|Passing(hits)|]
  {
    if hits != [] {
      var tail := hits[1..];
      SortedTail(hits);
      SortedPassingIsPrefix(tail);
      var rest := Passing(tail);
      if Passes(hits[0]) {
        assert Passing(hits) == [hits[0]] + rest;
        assert hits[..|rest| + 1] == [hits[0]] + tail[..|rest|];
      } else {
        SortedHeadFails(hits);
        PassingNonEmpty(hits);
        assert Passing(hits) == [];
      }
    }
  }

  /**
   * With hits best first, the selection is the first few hits, and every
   * selected hit scores at least as high as every hit left out; in
   * particular the fallback keeps the single best-scoring hit.
   */
  lemma SelectionIsTopPrefix(hits: seq<Hit>)
    requires |hits| > 0 && SortedByScore(hits)
    ensures Select(hits) == hits[..|Select(hits)|]
    ensures forall i, j :: 0 <= i < |Select(hits)| <= j < |hits| ==> hits[i].score >= hits[j].score
    ensures !AnyPasses(hits) ==> forall j :: 0 <= j < |hits| ==> Select(hits)[0].score >= hits[j].score
  {
    SortedPassingIsPrefix(hits);
    PassingNonEmpty(hits);
  }
}
