/** `rank_chunks`: score every chunk against the persona/task query, write
    each score into its chunk, sort stably by score, highest first, and keep
    at most the first ten.

    The similarity measure (TF-IDF vectors and cosine similarity) is not
    modelled: a `Ranker` carries it as a function giving the score of the
    `i`-th corpus text against the query (the feature space is built from the
    query and the whole corpus, so the corpus is an argument), and carries the
    comparison `lt` of the score type, which the ranking lemmas require to be
    a strict total order. */
module Ranking {
  import opened Wrappers
  import opened Chunks

  /** The `[:10]` of `rank_chunks`. */
  const MaxSections: nat := 10

  ghost predicate Irreflexive<S(!new)>(lt: (S, S) -> bool) {
    forall x :: !lt(x, x)
  }

  /** What Python's `<` is on floats that are not NaN, once values that
      compare `==` (such as `-0.0` and `0.0`) are taken as one score. */
  ghost predicate StrictTotalOrder<S(!new)>(lt: (S, S) -> bool) {
    && Irreflexive(lt)
    && (forall x, y, z :: lt(x, y) && lt(y, z) ==> lt(x, z))
    && (forall x, y :: x != y ==> lt(x, y) || lt(y, x))
  }

  datatype Ranker<!S> = Ranker(similarity: (string, seq<string>, nat) -> S, lt: (S, S) -> bool) {
    /** `cosine_similarity(vectors[0:1], vectors[1:]).flatten()`: one score
        per corpus text, in corpus order. */
    function Scores(query: string, corpus: seq<string>): seq<S> {
      seq(|corpus|, i requires 0 <= i < |corpus| => similarity(query, corpus, i))
    }
  }

  /** `f"{persona} {task}"` */
  function Query(persona: string, task: string): string {
    persona + " " + task
  }

  predicate AllScored<S>(s: seq<Chunk<S>>) {
    forall i :: 0 <= i < |s| ==> s[i].score.Some?
  }

  /** The chunks after the scoring loop: chunk `i` with score `i` written in. */
  function WithScores<S>(chunks: seq<Chunk<S>>, scores: seq<S>): seq<Chunk<S>>
    requires |scores| == |chunks|
  {
    seq(|chunks|, i requires 0 <= i < |chunks| => chunks[i].(score := Some(scores[i])))
  }

  /** `a` has the strictly higher score. */
  predicate Above<S>(lt: (S, S) -> bool, a: Chunk<S>, b: Chunk<S>)
    requires a.score.Some? && b.score.Some?
  {
    lt(b.score.value, a.score.value)
  }

  /** Non-increasing by score: no chunk has a higher score than one before it. */
  predicate SortedDesc<S>(lt: (S, S) -> bool, s: seq<Chunk<S>>)
    requires AllScored(s)
  {
    forall i, j :: 0 <= i < j < |s| ==> !Above(lt, s[j], s[i])
  }

  /** `x` placed in front of the first chunk of `t` whose score is not
      higher than its own. */
  function Insert<S>(lt: (S, S) -> bool, x: Chunk<S>, t: seq<Chunk<S>>): (r: seq<Chunk<S>>)
    requires x.score.Some? && AllScored(t)
    ensures AllScored(r)
    ensures multiset(r) == multiset(t) + multiset{x}
  {
    if t == [] then [x]
    else if Above(lt, t[0], x) then
      assert t == [t[0]] + t[1..];
      [t[0]] + Insert(lt, x, t[1..])
    else [x] + t
  }

  /** `sorted(s, key=score, reverse=True)` as an insertion sort; the result
      is a permutation of `s`. */
  function SortDesc<S>(lt: (S, S) -> bool, s: seq<Chunk<S>>): (r: seq<Chunk<S>>)
    requires AllScored(s)
    ensures AllScored(r)
    ensures multiset(r) == multiset(s)
  {
    if s == [] then []
    else
      assert s == [s[0]] + s[1..];
      Insert(lt, s[0], SortDesc(lt, s[1..]))
  }

  /** `s[:10]` */
  function TopK<T>(s: seq<T>): seq<T> {
    if |s| <= MaxSections then s else s[..MaxSections]
  }

  /** The value `rank_chunks` returns for chunks whose similarity scores are
      `scores`. */
  function Rank<S>(chunks: seq<Chunk<S>>, scores: seq<S>, lt: (S, S) -> bool): seq<Chunk<S>>
    requires |scores| == |chunks|
  {
    TopK(SortDesc(lt, WithScores(chunks, scores)))
  }

  /** `rank_chunks` itself: the scoring loop writes into the caller's chunks
      in place; the sorted, truncated copy is returned. */
  method RankChunks<S>(chunks: array<Chunk<S>>, persona: string, task: string, ranker: Ranker<S>)
    returns (top: seq<Chunk<S>>)
    modifies chunks
    ensures var scores := ranker.Scores(Query(persona, task), Texts(old(chunks[..])));
      && (forall i :: 0 <= i < chunks.Length ==>
            && chunks[i].score == Some(scores[i])
            && chunks[i].document == old(chunks[i].document)
            && chunks[i].page == old(chunks[i].page)
            && chunks[i].text == old(chunks[i].text))
      && top == Rank(old(chunks[..]), scores, ranker.lt)
  {
    var corpus := Texts(chunks[..]);
    var scores := ranker.Scores(Query(persona, task), corpus);
    for i := 0 to |scores|
      invariant forall j :: 0 <= j < i ==> chunks[j] == old(chunks[j]).(score := Some(scores[j]))
      invariant forall j :: i <= j < chunks.Length ==> chunks[j] == old(chunks[j])
    {
      chunks[i] := chunks[i].(score := Some(scores[i]));
    }
    assert chunks[..] == WithScores(old(chunks[..]), scores);
    top := TopK(SortDesc(ranker.lt, chunks[..]));
  }

  // ---------------------------------------------------------------------
  // Sortedness

  lemma NotBelowTransitive<S(!new)>(lt: (S, S) -> bool, a: S, b: S, c: S)
    requires StrictTotalOrder(lt)
    requires !lt(a, b) && !lt(b, c)
    ensures !lt(a, c)
  {
    if a != b {
      assert lt(b, a);
    }
  }

  /** Every chunk of an insertion result is the inserted one or was there. */
  lemma InsertMember<S>(lt: (S, S) -> bool, x: Chunk<S>, t: seq<Chunk<S>>, e: Chunk<S>)
    requires x.score.Some? && AllScored(t) && e in Insert(lt, x, t)
    ensures e == x || e in t
  {
    assert e in multiset(Insert(lt, x, t));
  }

  /** Inserting into a sorted sequence keeps it sorted. */
  lemma {:induction false} InsertSorted<S(!new)>(lt: (S, S) -> bool, x: Chunk<S>, t: seq<Chunk<S>>)
    requires StrictTotalOrder(lt)
    requires x.score.Some? && AllScored(t) && SortedDesc(lt, t)
    ensures SortedDesc(lt, Insert(lt, x, t))
  {
    var r := Insert(lt, x, t);
    if t == [] {
    } else if Above(lt, t[0], x) {
      var tail := t[1..];
      var rest := Insert(lt, x, tail);
      InsertSorted(lt, x, tail);
      assert r == [t[0]] + rest;
      forall j | 0 <= j < |rest| ensures !Above(lt, rest[j], t[0]) {
        InsertMember(lt, x, tail, rest[j]);
        if rest[j] != x {
          var m :| 0 <= m < |tail| && tail[m] == rest[j];
          assert t[m + 1] == rest[j];
        }
      }
      forall i, j | 0 <= i < j < |r| ensures !Above(lt, r[j], r[i]) {
        assert r[j] == rest[j - 1];
        if i > 0 {
          assert r[i] == rest[i - 1];
        }
      }
    } else {
      assert r == [x] + t;
      forall i, j | 0 <= i < j < |r| ensures !Above(lt, r[j], r[i]) {
        assert r[j] == t[j - 1];
        if i > 0 {
          assert r[i] == t[i - 1];
        } else if j > 1 {
          NotBelowTransitive(lt, x.score.value, t[0].score.value, t[j - 1].score.value);
        }
      }
    }
  }

  /** The sort puts the chunks in non-increasing score order. */
  lemma {:induction false} SortDescSorted<S(!new)>(lt: (S, S) -> bool, s: seq<Chunk<S>>)
    requires StrictTotalOrder(lt) && AllScored(s)
    ensures SortedDesc(lt, SortDesc(lt, s))
  {
    if s != [] {
      SortDescSorted(lt, s[1..]);
      InsertSorted(lt, s[0], SortDesc(lt, s[1..]));
    }
  }

  // ---------------------------------------------------------------------
  // Stability: the chunks that share a score keep their relative order.

  /** The chunks of `s` whose score is `k`, in their order in `s`. */
  ghost function ScoreClass<S>(s: seq<Chunk<S>>, k: S): seq<Chunk<S>> {
    if s == [] then []
    else (if s[0].score == Some(k) then [s[0]] else []) + ScoreClass(s[1..], k)
  }

  lemma {:induction false} ScoreClassAppend<S>(a: seq<Chunk<S>>, b: seq<Chunk<S>>, k: S)
    ensures ScoreClass(a + b, k) == ScoreClass(a, k) + ScoreClass(b, k)
  {
    if a == [] {
      assert a + b == b;
    } else {
      var head := if a[0].score == Some(k) then [a[0]] else [];
      assert (a + b)[0] == a[0];
      assert (a + b)[1..] == a[1..] + b;
      calc {
        ScoreClass(a + b, k);
        head + ScoreClass(a[1..] + b, k);
      == { ScoreClassAppend(a[1..], b, k); }
        head + (ScoreClass(a[1..], k) + ScoreClass(b, k));
        ScoreClass(a, k) + ScoreClass(b, k);
      }
    }
  }

  lemma ScoreClassSingle<S>(c: Chunk<S>, k: S)
    ensures ScoreClass([c], k) == if c.score == Some(k) then [c] else []
  {
    assert [c][1..] == [];
  }

  /** Insertion only moves `x` past chunks with a strictly higher score, so
      it changes nothing in any class of equal scores except placing `x`
      first in its own. */
  lemma {:induction false} InsertScoreClass<S(!new)>(lt: (S, S) -> bool, x: Chunk<S>, t: seq<Chunk<S>>, k: S)
    requires Irreflexive(lt)
    requires x.score.Some? && AllScored(t)
    ensures ScoreClass(Insert(lt, x, t), k) == ScoreClass([x], k) + ScoreClass(t, k)
  {
    ScoreClassSingle(x, k);
    if t == [] {
    } else if Above(lt, t[0], x) {
      var tail := t[1..];
      var rest := Insert(lt, x, tail);
      calc {
        ScoreClass(Insert(lt, x, t), k);
      == { assert Insert(lt, x, t) == [t[0]] + rest; }
        ScoreClass([t[0]] + rest, k);
      == { ScoreClassAppend([t[0]], rest, k); }
        ScoreClass([t[0]], k) + ScoreClass(rest, k);
      == { InsertScoreClass(lt, x, tail, k); }
        ScoreClass([t[0]], k) + (ScoreClass([x], k) + ScoreClass(tail, k));
      == { ScoreClassSingle(t[0], k); assert t[0].score != x.score; }
        ScoreClass([x], k) + (ScoreClass([t[0]], k) + ScoreClass(tail, k));
      == { ScoreClassAppend([t[0]], tail, k); assert t == [t[0]] + tail; }
        ScoreClass([x], k) + ScoreClass(t, k);
      }
    } else {
      ScoreClassAppend([x], t, k);
    }
  }

  /** Python's sort is stable also with `reverse=True`: within each class
      of equal scores the sorted order is the input order. */
  lemma {:induction false} SortDescStable<S(!new)>(lt: (S, S) -> bool, s: seq<Chunk<S>>, k: S)
    requires StrictTotalOrder(lt) && AllScored(s)
    ensures ScoreClass(SortDesc(lt, s), k) == ScoreClass(s, k)
  {
    if s != [] {
      SortDescStable(lt, s[1..], k);
      InsertScoreClass(lt, s[0], SortDesc(lt, s[1..]), k);
      ScoreClassAppend([s[0]], s[1..], k);
      assert s == [s[0]] + s[1..];
    }
  }

  // ---------------------------------------------------------------------
  // What `rank_chunks` returns

  /** Each returned chunk is an input chunk with its own score written in. */
  lemma RankMember<S>(chunks: seq<Chunk<S>>, scores: seq<S>, lt: (S, S) -> bool, c: Chunk<S>)
    requires |scores| == |chunks| && c in Rank(chunks, scores, lt)
    ensures exists j :: 0 <= j < |chunks| && c == chunks[j].(score := Some(scores[j]))
  {
    var scored := WithScores(chunks, scores);
    var sorted := SortDesc(lt, scored);
    assert c in sorted;
    assert c in multiset(scored);
    var j :| 0 <= j < |scored| && scored[j] == c;
  }

  /** The result holds min(10, n) chunks and is the first part of a
      permutation of the scored input; so each returned chunk is an input
      chunk with its own score written in. */
  lemma RankSize<S>(chunks: seq<Chunk<S>>, scores: seq<S>, lt: (S, S) -> bool)
    requires |scores| == |chunks|
    ensures var r := Rank(chunks, scores, lt);
      && |r| == (if |chunks| < MaxSections then |chunks| else MaxSections)
      && (exists p: seq<Chunk<S>> :: |r| <= |p| && multiset(p) == multiset(WithScores(chunks, scores)) && r == p[..|r|])
      && forall i :: 0 <= i < |r| ==> exists j :: 0 <= j < |chunks| && r[i] == chunks[j].(score := Some(scores[j]))
  {
    var scored := WithScores(chunks, scores);
    var sorted := SortDesc(lt, scored);
    var r := Rank(chunks, scores, lt);
    assert |sorted| == |multiset(scored)| == |scored|;
    assert r == sorted[..|r|];
    forall i | 0 <= i < |r|
      ensures exists j :: 0 <= j < |chunks| && r[i] == chunks[j].(score := Some(scores[j]))
    {
      RankMember(chunks, scores, lt, r[i]);
    }
  }

  /** The result is non-increasing by score. */
  lemma RankSorted<S(!new)>(chunks: seq<Chunk<S>>, scores: seq<S>, lt: (S, S) -> bool)
    requires |scores| == |chunks| && StrictTotalOrder(lt)
    ensures AllScored(Rank(chunks, scores, lt)) && SortedDesc(lt, Rank(chunks, scores, lt))
  {
    var sorted := SortDesc(lt, WithScores(chunks, scores));
    SortDescSorted(lt, WithScores(chunks, scores));
    var r := Rank(chunks, scores, lt);
    assert forall i :: 0 <= i < |r| ==> r[i] == sorted[i];
  }

  /** In a non-increasing sequence, no chunk after position `k` scores
      higher than one before it. */
  lemma PrefixTop<S>(lt: (S, S) -> bool, s: seq<Chunk<S>>, k: nat)
    requires AllScored(s) && SortedDesc(lt, s) && k <= |s|
    ensures forall c: Chunk<S>, x: Chunk<S> :: c in s[..k] && x in s[k..] ==>
      x.score.Some? && c.score.Some? && !Above(lt, x, c)
  {
    forall c: Chunk<S>, x: Chunk<S> | c in s[..k] && x in s[k..]
      ensures x.score.Some? && c.score.Some? && !Above(lt, x, c)
    {
      var a :| 0 <= a < k && s[..k][a] == c;
      var b :| 0 <= b < |s| - k && s[k..][b] == x;
      assert s[a] == c && s[k + b] == x;
    }
  }

  /** `[:10]` of the descending sort keeps the best chunks: no chunk left
      out scores higher than any chunk returned. */
  lemma RankTop<S(!new)>(chunks: seq<Chunk<S>>, scores: seq<S>, lt: (S, S) -> bool)
    requires |scores| == |chunks| && StrictTotalOrder(lt)
    ensures var r := Rank(chunks, scores, lt);
      forall c: Chunk<S>, x: Chunk<S> :: c in r && x in multiset(WithScores(chunks, scores)) - multiset(r) ==>
        x.score.Some? && c.score.Some? && !Above(lt, x, c)
  {
    var sorted := SortDesc(lt, WithScores(chunks, scores));
    var r := Rank(chunks, scores, lt);
    SortDescSorted(lt, WithScores(chunks, scores));
    assert r == sorted[..|r|];
    assert sorted == r + sorted[|r|..];
    assert multiset(WithScores(chunks, scores)) - multiset(r) == multiset(sorted[|r|..]);
    PrefixTop(lt, sorted, |r|);
  }

  lemma {:induction false} ScoreClassPrefix<S>(s: seq<Chunk<S>>, n: nat, k: S)
    requires n <= |s|
    ensures ScoreClass(s[..n], k) <= ScoreClass(s, k)
  {
    ScoreClassAppend(s[..n], s[n..], k);
    assert s == s[..n] + s[n..];
  }

  /** Among the returned chunks, each class of equal scores is an initial
      part of that class in the input, in input order. */
  lemma RankStable<S(!new)>(chunks: seq<Chunk<S>>, scores: seq<S>, lt: (S, S) -> bool, k: S)
    requires |scores| == |chunks| && StrictTotalOrder(lt)
    ensures ScoreClass(Rank(chunks, scores, lt), k) <= ScoreClass(WithScores(chunks, scores), k)
  {
    var scored := WithScores(chunks, scores);
    var sorted := SortDesc(lt, scored);
    SortDescStable(lt, scored, k);
    if |sorted| > MaxSections {
      ScoreClassPrefix(sorted, MaxSections, k);
    }
  }

  // ---------------------------------------------------------------------
  // Stability by index, for chunks told apart by their page numbers

  ghost predicate Distinct<T>(s: seq<T>) {
    forall a, b :: 0 <= a < b < |s| ==> s[a] != s[b]
  }

  lemma {:induction false} ScoreClassMembers<S>(s: seq<Chunk<S>>, k: S)
    ensures forall x :: x in ScoreClass(s, k) ==> x in s
  {
    if s != [] {
      ScoreClassMembers(s[1..], k);
    }
  }

  lemma {:induction false} ScoreClassDistinct<S>(s: seq<Chunk<S>>, k: S)
    requires Distinct(s)
    ensures Distinct(ScoreClass(s, k))
  {
    if s != [] {
      var rest := ScoreClass(s[1..], k);
      ScoreClassDistinct(s[1..], k);
      ScoreClassMembers(s[1..], k);
      assert s[0] !in s[1..];
      assert s[0] !in rest;
      var c := ScoreClass(s, k);
      assert c == rest || c == [s[0]] + rest;
      if c != rest {
        forall a, b | 0 <= a < b < |c| ensures c[a] != c[b] {
          if a == 0 {
            assert c[b] == rest[b - 1];
            assert rest[b - 1] in rest;
          } else {
            assert c[a] == rest[a - 1] && c[b] == rest[b - 1];
          }
        }
      }
    }
  }

  /** A chunk of score `k` at index `p` is the entry of its class whose
      index is the number of class members before `p`. */
  lemma ScoreClassAt<S>(s: seq<Chunk<S>>, p: nat, k: S)
    requires p < |s| && s[p].score == Some(k)
    ensures |ScoreClass(s[..p], k)| < |ScoreClass(s, k)|
    ensures ScoreClass(s, k)[|ScoreClass(s[..p], k)|] == s[p]
  {
    ScoreClassAppend(s[..p], s[p..], k);
    assert s == s[..p] + s[p..];
    assert s[p..][0] == s[p];
  }

  lemma ScoreClassMonotone<S>(s: seq<Chunk<S>>, p: nat, q: nat, k: S)
    requires p < q <= |s| && s[p].score == Some(k)
    ensures |ScoreClass(s[..p], k)| < |ScoreClass(s[..q], k)|
  {
    ScoreClassAt(s[..q], p, k);
    assert s[..q][..p] == s[..p];
  }

  /** With pairwise distinct pages, the returned chunk that has the page of
      input chunk `i` is that chunk with its score written in. */
  lemma RankAtPage<S>(chunks: seq<Chunk<S>>, scores: seq<S>, lt: (S, S) -> bool, i: nat, p: nat)
    requires |scores| == |chunks|
    requires forall a, b :: 0 <= a < b < |chunks| ==> chunks[a].page != chunks[b].page
    requires i < |chunks|
    requires p < |Rank(chunks, scores, lt)| && Rank(chunks, scores, lt)[p].page == chunks[i].page
    ensures Rank(chunks, scores, lt)[p] == WithScores(chunks, scores)[i]
  {
    var c := Rank(chunks, scores, lt)[p];
    RankMember(chunks, scores, lt, c);
    var j :| 0 <= j < |chunks| && c == chunks[j].(score := Some(scores[j]));
    assert chunks[j].page == chunks[i].page;
    assert j == i;
  }

  /** The index form of stability, for input chunks with pairwise distinct
      page numbers (as extraction produces them): if chunks `i < j` have the
      same score and both are returned, chunk `i` is returned first. */
  lemma RankKeepsTieOrder<S(!new)>(chunks: seq<Chunk<S>>, scores: seq<S>, lt: (S, S) -> bool,
                             i: nat, j: nat, p: nat, q: nat)
    requires |scores| == |chunks| && StrictTotalOrder(lt)
    requires forall a, b :: 0 <= a < b < |chunks| ==> chunks[a].page != chunks[b].page
    requires i < j < |chunks| && scores[i] == scores[j]
    requires p < |Rank(chunks, scores, lt)| && Rank(chunks, scores, lt)[p].page == chunks[i].page
    requires q < |Rank(chunks, scores, lt)| && Rank(chunks, scores, lt)[q].page == chunks[j].page
    ensures p < q
  {
    var scored := WithScores(chunks, scores);
    var sorted := SortDesc(lt, scored);
    var k := scores[i];
    RankAtPage(chunks, scores, lt, i, p);
    RankAtPage(chunks, scores, lt, j, q);
    assert sorted[p] == scored[i] && sorted[q] == scored[j];
    assert Distinct(scored) by {
      forall a, b | 0 <= a < b < |scored| ensures scored[a] != scored[b] {
        assert scored[a].page == chunks[a].page;
      }
    }
    // Compare the positions of both in their common score class.
    SortDescStable(lt, scored, k);
    ScoreClassDistinct(scored, k);
    var cls := ScoreClass(scored, k);
    ScoreClassAt(scored, i, k);
    ScoreClassAt(scored, j, k);
    ScoreClassMonotone(scored, i, j, k);
    ScoreClassAt(sorted, p, k);
    ScoreClassAt(sorted, q, k);
    var ci, cj := |ScoreClass(scored[..i], k)|, |ScoreClass(scored[..j], k)|;
    var cp, cq := |ScoreClass(sorted[..p], k)|, |ScoreClass(sorted[..q], k)|;
    assert cls[cp] == cls[ci];
    assert cp == ci;
    assert cls[cq] == cls[cj];
    assert cq == cj;
    if q < p {
      ScoreClassMonotone(sorted, q, p, k);
      assert false;
    } else if q == p {
      assert false;
    }
  }

  /** For input chunks in strictly increasing page order, returned chunks
      with equal scores appear in the order of their pages. */
  lemma RankTiesByPage<S(!new)>(chunks: seq<Chunk<S>>, scores: seq<S>, lt: (S, S) -> bool, p: nat, q: nat)
    requires |scores| == |chunks| && StrictTotalOrder(lt)
    requires forall a, b :: 0 <= a < b < |chunks| ==> chunks[a].page < chunks[b].page
    requires p < |Rank(chunks, scores, lt)| && q < |Rank(chunks, scores, lt)|
    requires Rank(chunks, scores, lt)[p].score == Rank(chunks, scores, lt)[q].score
    requires Rank(chunks, scores, lt)[p].page < Rank(chunks, scores, lt)[q].page
    ensures p < q
  {
    var r := Rank(chunks, scores, lt);
    assert r[p] in r && r[q] in r;
    RankMember(chunks, scores, lt, r[p]);
    var i :| 0 <= i < |chunks| && r[p] == chunks[i].(score := Some(scores[i]));
    RankMember(chunks, scores, lt, r[q]);
    var j :| 0 <= j < |chunks| && r[q] == chunks[j].(score := Some(scores[j]));
    assert chunks[i].page < chunks[j].page;
    assert i < j;
    RankKeepsTieOrder(chunks, scores, lt, i, j, p, q);
  }
}
