/**
 * Recommending courses for a free-text topic. The topic is split into comma-separated
 * phrases; the corpus is narrowed to one language; for each phrase every course gets a
 * similarity score, a course named exactly like the phrase is excluded, only scores
 * strictly above the threshold pass, and the highest-scoring few are kept (five for a
 * single phrase, two per phrase otherwise). The per-phrase picks are concatenated,
 * de-duplicated on the course name (first occurrence wins) and sorted by descending score.
 *
 * The similarity itself (TF-IDF weighting and cosine similarity) is a parameter `score`:
 * the selection rules never look inside it.
 */
module Ranking {
  import opened Wrappers
  import opened Frames
  import opened Text
  import opened Catalog

  /** A course with its similarity to one query phrase. */
  datatype Scored = Scored(course: Course, similarity: real)

  /** How a recommendation call can fail instead of returning rows. */
  datatype Error =
    /** The per-phrase loop never ran, so the accumulated frame has no columns and the
        final sort finds no similarity column to sort by. */
    | MissingSimilarityColumn

  /** The de-duplication key of a scored row. */
  function ScoredName(x: Scored): string
  {
    x.course.name
  }

  /** The number of rows kept per phrase when the query has a single phrase. */
  const SingleCap: nat := 5
  /** The number of rows kept per phrase when the query has several phrases. */
  const MultiCap: nat := 2

  /** The per-phrase cap for a query of phraseCount phrases. */
  function Cap(phraseCount: nat): (c: nat)
    ensures phraseCount == 1 ==> c == 5
    ensures phraseCount != 1 ==> c == 2
  {
    if phraseCount == 1 then SingleCap else MultiCap
  }

  // ---------------------------------------------------------------- query phrases

  /** The non-empty stripped pieces, in order. */
  function StrippedPieces(pieces: seq<string>): (r: seq<string>)
    ensures forall q :: q in r <==> q != [] && exists p :: p in pieces && q == Strip(p)
    ensures r == [] <==> forall p :: p in pieces ==> Strip(p) == []
    decreases |pieces|
  {
    if pieces == [] then []
    else
      var q := Strip(pieces[0]);
      var rest := StrippedPieces(pieces[1..]);
      assert forall p :: p in pieces <==> p == pieces[0] || p in pieces[1..];
      if q == [] then rest else [q] + rest
  }

  /**
   * The query phrases: the comma-separated pieces of topic, whitespace-stripped, with
   * the empty ones removed. Each phrase is non-empty, comma-free and has no whitespace
   * at either end; there are none exactly when topic holds only commas and whitespace.
   */
  function Phrases(topic: string): (r: seq<string>)
    ensures forall q :: q in r ==> q != [] && ',' !in q && !IsSpace(q[0]) && !IsSpace(q[|q| - 1])
    ensures forall q :: q in r ==> exists p :: p in Split(topic, ',') && q == Strip(p)
    ensures r == [] <==> forall c :: c in topic ==> c == ',' || IsSpace(c)
  {
    var pieces := Split(topic, ',');
    var r := StrippedPieces(pieces);
    BlankPieces(pieces, ',');
    r
  }

  /** A non-empty string. */
  predicate NonEmpty(q: string)
  {
    q != []
  }

  /** The phrases keep the order of the pieces they come from. */
  lemma {:induction false} StrippedPiecesInOrder(pieces: seq<string>)
    ensures StrippedPieces(pieces) == Filter(Map(pieces, Strip), NonEmpty)
    decreases |pieces|
  {
    if pieces != [] {
      StrippedPiecesInOrder(pieces[1..]);
      var m := Map(pieces, Strip);
      var q := Strip(pieces[0]);
      assert m[0] == q;
      assert m[1..] == Map(pieces[1..], Strip);
      var rest := Filter(m[1..], NonEmpty);
      assert Filter(m, NonEmpty) == if NonEmpty(q) then [q] + rest else rest;
    }
  }

  /**
   * The query phrases in input order: the comma-separated pieces, each stripped, the
   * empty ones dropped.
   */
  lemma PhrasesInOrder(topic: string)
    ensures Phrases(topic) == Filter(Map(Split(topic, ','), Strip), NonEmpty)
  {
    StrippedPiecesInOrder(Split(topic, ','));
  }

  /** A piece without separators is all separators and whitespace exactly when it strips to nothing. */
  lemma BlankPiece(p: string, sep: char)
    requires sep !in p
    ensures (forall c :: c in p ==> c == sep || IsSpace(c)) <==> Strip(p) == []
  {
    StripBlank(p);
  }

  /** A joined string is all separators and whitespace exactly when every piece is blank. */
  lemma {:induction false} BlankPieces(pieces: seq<string>, sep: char)
    requires |pieces| >= 1
    requires forall p :: p in pieces ==> sep !in p
    ensures (forall c :: c in Join(pieces, sep) ==> c == sep || IsSpace(c)) <==>
            (forall p :: p in pieces ==> Strip(p) == [])
    decreases |pieces|
  {
    BlankPiece(pieces[0], sep);
    if |pieces| == 1 {
      assert forall p :: p in pieces <==> p == pieces[0];
    } else {
      BlankPieces(pieces[1..], sep);
      var tail := Join(pieces[1..], sep);
      var j := Join(pieces, sep);
      assert j == pieces[0] + [sep] + tail;
      assert forall c :: c in j <==> c in pieces[0] || c == sep || c in tail;
      assert forall p :: p in pieces <==> p == pieces[0] || p in pieces[1..];
    }
  }

  // ---------------------------------------------------------------- language filter

  /** No language filter applies: none given, an empty one, or "all" in any letter case. */
  predicate NoLanguageFilter(language: Option<string>): (b: bool)
    ensures b <==> || language.None?
                   || language.value == ""
                   || (&& |language.value| == 3
                       && language.value[0] in "aA"
                       && language.value[1] in "lL"
                       && language.value[2] in "lL")
  {
    var b := language.None? || language.value == "" || Lower(language.value) == "all";
    assert language.Some? && |language.value| == 3 ==>
             Lower(language.value) == [LowerChar(language.value[0]), LowerChar(language.value[1]), LowerChar(language.value[2])];
    b
  }

  /**
   * The corpus narrowed to one language, compared case-insensitively; unchanged when no
   * filter applies. Order is kept and distinct names stay distinct.
   */
  function ByLanguage(corpus: seq<Course>, language: Option<string>): (r: seq<Course>)
    ensures NoLanguageFilter(language) ==> r == corpus
    ensures !NoLanguageFilter(language) ==>
              forall c :: c in r <==> c in corpus && Lower(c.language) == Lower(language.value)
    ensures DistinctKeys(corpus, CourseName) ==> DistinctKeys(r, CourseName)
  {
    if NoLanguageFilter(language) then corpus
    else
      var wanted := Lower(language.value);
      var inLanguage := (c: Course) => Lower(c.language) == wanted;
      var r := Filter(corpus, inLanguage);
      assert DistinctKeys(corpus, CourseName) ==> DistinctKeys(r, CourseName) by {
        if DistinctKeys(corpus, CourseName) {
          FilterDistinct(corpus, inLanguage, CourseName);
        }
      }
      r
  }

  // ---------------------------------------------------------------- one phrase

  /**
   * The scored rows for one phrase that survive self-exclusion and the threshold, in
   * corpus order: a course qualifies exactly when its lower-cased name differs from the
   * lower-cased phrase and its score is strictly above the threshold.
   */
  function Candidates(pool: seq<Course>, phrase: string, threshold: real, score: (string, Course) -> real): (r: seq<Scored>)
    ensures |r| <= |pool|
    ensures forall i :: 0 <= i < |r| ==>
              && r[i].similarity == score(phrase, r[i].course)
              && r[i].similarity > threshold
              && Lower(r[i].course.name) != Lower(phrase)
    decreases |pool|
  {
    if pool == [] then []
    else
      var c := pool[0];
      var s := score(phrase, c);
      var rest := Candidates(pool[1..], phrase, threshold, score);
      if Lower(c.name) != Lower(phrase) && s > threshold then [Scored(c, s)] + rest else rest
  }

  /**
   * A row is a candidate exactly when its course is in the pool, its similarity is the
   * course's score against the phrase, the course is not named after the phrase, and
   * the score is strictly above the threshold.
   */
  lemma {:induction false} CandidateMember(pool: seq<Course>, phrase: string, threshold: real,
                                           score: (string, Course) -> real, x: Scored)
    ensures x in Candidates(pool, phrase, threshold, score) <==>
              && x.course in pool
              && x.similarity == score(phrase, x.course)
              && Lower(x.course.name) != Lower(phrase)
              && x.similarity > threshold
    decreases |pool|
  {
    if pool != [] {
      CandidateMember(pool[1..], phrase, threshold, score, x);
      assert x.course in pool <==> x.course == pool[0] || x.course in pool[1..];
    }
  }

  /** Distinct course names in the pool give distinct names among the candidates. */
  lemma {:induction false} CandidatesDistinct(pool: seq<Course>, phrase: string, threshold: real, score: (string, Course) -> real)
    requires DistinctKeys(pool, CourseName)
    ensures DistinctKeys(Candidates(pool, phrase, threshold, score), ScoredName)
    decreases |pool|
  {
    if pool != [] {
      assert DistinctKeys(pool[1..], CourseName);
      CandidatesDistinct(pool[1..], phrase, threshold, score);
      forall x | x in Candidates(pool[1..], phrase, threshold, score)
        ensures ScoredName(x) != pool[0].name
      {
        CandidateMember(pool[1..], phrase, threshold, score, x);
        var k :| 0 <= k < |pool| - 1 && pool[1..][k] == x.course;
        assert pool[k + 1] == x.course;
      }
    }
  }

  /** The similarity of row i of s. */
  ghost function ScoreAt(s: seq<Scored>, i: int): real
    requires 0 <= i < |s|
  {
    s[i].similarity
  }

  /** Non-increasing similarity from front to back. */
  ghost predicate SortedDesc(s: seq<Scored>)
  {
    forall i, j :: 0 <= i < j < |s| ==> ScoreAt(s, i) >= ScoreAt(s, j)
  }

  /** order is a possible outcome of sorting cands by descending similarity, ties in any order. */
  ghost predicate IsDescendingOrder(cands: seq<Scored>, order: seq<Scored>)
  {
    SortedDesc(order) && multiset(order) == multiset(cands)
  }

  /**
   * picked is a possible outcome of sort_values(by='similarity', ascending=False).head(k)
   * on cands: the first k rows of some descending ordering of cands. The sort is not
   * stable, so which of several tied rows comes first is left open.
   */
  ghost predicate IsTopK(cands: seq<Scored>, k: nat, picked: seq<Scored>)
  {
    exists order :: IsDescendingOrder(cands, order) && picked == Head(order, k)
  }

  /** x placed in front of the first row of s scoring no more than it. */
  function Insert(x: Scored, s: seq<Scored>): (r: seq<Scored>)
    ensures |r| == |s| + 1
    ensures r[0] == x || (s != [] && r[0] == s[0])
    ensures multiset(r) == multiset(s) + multiset{x}
    decreases |s|
  {
    if s == [] || s[0].similarity <= x.similarity then [x] + s
    else
      assert s == [s[0]] + s[1..];
      [s[0]] + Insert(x, s[1..])
  }

  /** Inserting into a descending sequence keeps it descending. */
  lemma {:induction false} InsertSorted(x: Scored, s: seq<Scored>)
    requires SortedDesc(s)
    ensures SortedDesc(Insert(x, s))
    decreases |s|
  {
    var r := Insert(x, s);
    if s == [] || s[0].similarity <= x.similarity {
      forall i, j | 0 <= i < j < |r|
        ensures ScoreAt(r, i) >= ScoreAt(r, j)
      {
        assert r[j] == s[j - 1];
        if i > 0 {
          assert r[i] == s[i - 1];
          assert ScoreAt(s, i - 1) >= ScoreAt(s, j - 1);
        } else if j > 1 {
          assert ScoreAt(s, 0) >= ScoreAt(s, j - 1);
        }
      }
    } else {
      var rest := Insert(x, s[1..]);
      SortedSplit(s, 1);
      InsertSorted(x, s[1..]);
      forall i, j | 0 <= i < j < |r|
        ensures ScoreAt(r, i) >= ScoreAt(r, j)
      {
        assert r[j] == rest[j - 1];
        if i > 0 {
          assert r[i] == rest[i - 1];
          assert ScoreAt(rest, i - 1) >= ScoreAt(rest, j - 1);
        } else {
          assert rest[0].similarity <= s[0].similarity by {
            if rest[0] != x {
              assert rest[0] == s[1];
              assert ScoreAt(s, 0) >= ScoreAt(s, 1);
            }
          }
          if j > 1 {
            assert ScoreAt(rest, 0) >= ScoreAt(rest, j - 1);
          }
        }
      }
    }
  }

  /**
   * One descending ordering of s (insertion sort, which happens to keep ties in input
   * order): sorted by non-increasing similarity and a permutation of s.
   */
  function SortDesc(s: seq<Scored>): (r: seq<Scored>)
    ensures SortedDesc(r)
    ensures multiset(r) == multiset(s)
    decreases |s|
  {
    if s == [] then []
    else
      assert s == [s[0]] + s[1..];
      var rest := SortDesc(s[1..]);
      InsertSorted(s[0], rest);
      Insert(s[0], rest)
  }

  /** sort_values(by='similarity', ascending=False).head(k) on one phrase's candidates. */
  function TopMatches(cands: seq<Scored>, k: nat): (r: seq<Scored>)
    ensures IsTopK(cands, k, r)
  {
    var sorted := SortDesc(cands);
    assert IsDescendingOrder(cands, sorted);
    Head(sorted, k)
  }

  /** Cutting a descending sequence gives two descending parts, the front scoring no less. */
  lemma SortedSplit(sorted: seq<Scored>, m: nat)
    requires SortedDesc(sorted) && m <= |sorted|
    ensures SortedDesc(sorted[..m]) && SortedDesc(sorted[m..])
    ensures forall x, y :: x in sorted[..m] && y in sorted[m..] ==> y.similarity <= x.similarity
  {
    forall i, j | 0 <= i < j < m
      ensures ScoreAt(sorted[..m], i) >= ScoreAt(sorted[..m], j)
    {
      assert ScoreAt(sorted, i) >= ScoreAt(sorted, j);
    }
    forall i, j | 0 <= i < j < |sorted| - m
      ensures ScoreAt(sorted[m..], i) >= ScoreAt(sorted[m..], j)
    {
      assert ScoreAt(sorted, m + i) >= ScoreAt(sorted, m + j);
    }
    forall x, y | x in sorted[..m] && y in sorted[m..]
      ensures y.similarity <= x.similarity
    {
      var p :| 0 <= p < m && sorted[..m][p] == x;
      var q :| 0 <= q < |sorted| - m && sorted[m..][q] == y;
      assert ScoreAt(sorted, p) >= ScoreAt(sorted, m + q);
    }
  }

  /** Two descending parts, the front scoring no less than the back, make a descending whole. */
  lemma SortedJoin(a: seq<Scored>, b: seq<Scored>)
    requires SortedDesc(a) && SortedDesc(b)
    requires forall x, y :: x in a && y in b ==> y.similarity <= x.similarity
    ensures SortedDesc(a + b)
  {
    var s := a + b;
    forall i, j | 0 <= i < j < |s|
      ensures ScoreAt(s, i) >= ScoreAt(s, j)
    {
      if j < |a| {
        assert s[i] == a[i] && s[j] == a[j];
        assert ScoreAt(a, i) >= ScoreAt(a, j);
      } else if i >= |a| {
        assert s[i] == b[i - |a|] && s[j] == b[j - |a|];
        assert ScoreAt(b, i - |a|) >= ScoreAt(b, j - |a|);
      } else {
        assert s[i] == a[i] && s[j] == b[j - |a|];
        assert s[i] in a && s[j] in b;
      }
    }
  }

  /**
   * What a top k promises: min(k, |cands|) rows taken from cands, best first, and no
   * row left out scores above a row kept.
   */
  lemma TopKProperties(cands: seq<Scored>, k: nat, picked: seq<Scored>)
    requires IsTopK(cands, k, picked)
    ensures |picked| == (if |cands| < k then |cands| else k)
    ensures SortedDesc(picked)
    ensures multiset(picked) <= multiset(cands)
    ensures forall x, y :: x in picked && y in multiset(cands) - multiset(picked) ==> y.similarity <= x.similarity
  {
    var order :| IsDescendingOrder(cands, order) && picked == Head(order, k);
    var m := |picked|;
    assert |cands| == |order| by {
      assert |multiset(cands)| == |multiset(order)|;
    }
    var rest := order[m..];
    assert order == picked + rest;
    assert multiset(cands) == multiset(picked) + multiset(rest);
    SortedSplit(order, m);
    forall x, y | x in picked && y in multiset(cands) - multiset(picked)
      ensures y.similarity <= x.similarity
    {
      assert y in rest;
    }
  }

  // ---------------------------------------------------------------- whole query

  /**
   * What a successful call on a non-empty pool returns: for each phrase a valid top-k of
   * its candidates (the cap depending on the number of phrases), and, as the result, the
   * concatenated picks de-duplicated on course name, in descending order of score.
   */
  ghost predicate Recommendation(pool: seq<Course>, phrases: seq<string>, threshold: real,
                                 score: (string, Course) -> real, picks: seq<seq<Scored>>, out: seq<Scored>)
  {
    && |picks| == |phrases|
    && (forall j :: 0 <= j < |phrases| ==>
          IsTopK(Candidates(pool, phrases[j], threshold, score), Cap(|phrases|), picks[j]))
    && SortedDesc(out)
    && multiset(out) == multiset(DropDuplicates(Flatten(picks), ScoredName))
  }

  /** The selection made for one phrase: a top `cap` of its candidates. */
  function PickFor(pool: seq<Course>, threshold: real, score: (string, Course) -> real, cap: nat): (pick: string -> seq<Scored>)
    ensures forall phrase :: IsTopK(Candidates(pool, phrase, threshold, score), cap, pick(phrase))
  {
    phrase => TopMatches(Candidates(pool, phrase, threshold, score), cap)
  }

  /**
   * The loop over the phrases: for each phrase in turn, its top `cap` candidates are
   * appended to the accumulated rows.
   */
  method CollectPicks(phrases: seq<string>, pick: string -> seq<Scored>) returns (all: seq<Scored>)
    ensures all == Flatten(Map(phrases, pick))
  {
    all := [];
    for i := 0 to |phrases|
      invariant all == Flatten(Map(phrases[..i], pick))
    {
      assert phrases[..i + 1][..i] == phrases[..i];
      all := all + pick(phrases[i]);
    }
    assert phrases[..|phrases|] == phrases;
  }

  /**
   * get_recommendations_for_topic. An empty pool after the language filter gives no rows;
   * otherwise a query without phrases fails, and a query with phrases returns the
   * de-duplicated union of the per-phrase picks, sorted by descending score. `picks`
   * records the per-phrase selections the result is made of.
   */
  method Recommend(topic: string, corpus: seq<Course>, score: (string, Course) -> real,
                   threshold: real, language: Option<string>)
    returns (result: Result<seq<Scored>, Error>, ghost picks: seq<seq<Scored>>)
    ensures ByLanguage(corpus, language) == [] ==> result == Success([])
    ensures result.Failure? <==> ByLanguage(corpus, language) != [] && Phrases(topic) == []
    ensures result.Success? ==> DistinctKeys(result.value, ScoredName)
    ensures result.Success? && ByLanguage(corpus, language) != [] ==>
              Recommendation(ByLanguage(corpus, language), Phrases(topic), threshold, score, picks, result.value)
  {
    var phrases := Phrases(topic);
    var pool := ByLanguage(corpus, language);
    if pool == [] {
      return Success([]), [];
    }
    var pick := PickFor(pool, threshold, score, Cap(|phrases|));
    picks := Map(phrases, pick);
    var all := CollectPicks(phrases, pick);
    if phrases == [] {
      // The loop never ran: the accumulated frame is the column-less empty frame, which
      // de-duplication returns unchanged and the sort by similarity then rejects.
      return Failure(MissingSimilarityColumn), picks;
    }
    var unique := DropDuplicates(all, ScoredName);
    var sorted := SortDesc(unique);
    DistinctKeysSubMultiset(sorted, unique, ScoredName);
    forall j | 0 <= j < |phrases|
      ensures IsTopK(Candidates(pool, phrases[j], threshold, score), Cap(|phrases|), picks[j])
    {
      assert picks[j] == pick(phrases[j]);
    }
    result := Success(sorted);
  }

  // ---------------------------------------------------------------- what the result promises

  /** At most the cap per phrase: five for one phrase, two per phrase for several. */
  lemma RecommendationSize(pool: seq<Course>, phrases: seq<string>, threshold: real,
                           score: (string, Course) -> real, picks: seq<seq<Scored>>, out: seq<Scored>)
    requires Recommendation(pool, phrases, threshold, score, picks, out)
    ensures |out| <= Cap(|phrases|) * |phrases|
    ensures |phrases| == 1 ==> |out| <= 5
    ensures |phrases| > 1 ==> |out| <= 2 * |phrases|
  {
    forall j | 0 <= j < |picks|
      ensures |picks[j]| <= Cap(|phrases|)
    {
      TopKProperties(Candidates(pool, phrases[j], threshold, score), Cap(|phrases|), picks[j]);
    }
    FlattenLength(picks, Cap(|phrases|));
    assert |out| == |multiset(out)| == |DropDuplicates(Flatten(picks), ScoredName)|;
  }

  /**
   * Every returned row is a course of the pool, scored against the first phrase whose
   * picks hold its name: that score passed the threshold and the course is not named like
   * that phrase, and no earlier phrase picked a course of the same name.
   */
  lemma RecommendationProvenance(pool: seq<Course>, phrases: seq<string>, threshold: real,
                                 score: (string, Course) -> real, picks: seq<seq<Scored>>, out: seq<Scored>, x: Scored)
    requires Recommendation(pool, phrases, threshold, score, picks, out)
    requires x in out
    ensures x.course in pool
    ensures exists j :: 0 <= j < |phrases| && x in picks[j]
              && x.similarity == score(phrases[j], x.course)
              && x.similarity > threshold
              && Lower(x.course.name) != Lower(phrases[j])
              && forall j', y :: 0 <= j' < j && y in picks[j'] ==> y.course.name != x.course.name
  {
    assert x in multiset(DropDuplicates(Flatten(picks), ScoredName));
    DropSeenOfFlatten(picks, ScoredName, {}, x);
    var j :| 0 <= j < |picks| && x in picks[j] &&
             forall j', y :: 0 <= j' < j && y in picks[j'] ==> ScoredName(y) != ScoredName(x);
    assert x in multiset(picks[j]);
    var cands := Candidates(pool, phrases[j], threshold, score);
    TopKProperties(cands, Cap(|phrases|), picks[j]);
    assert x in cands;
    CandidateMember(pool, phrases[j], threshold, score, x);
    assert x.similarity == score(phrases[j], x.course) && x.similarity > threshold;
    assert Lower(x.course.name) != Lower(phrases[j]);
    forall j', y | 0 <= j' < j && y in picks[j']
      ensures y.course.name != x.course.name
    {
      assert ScoredName(y) != ScoredName(x);
    }
  }

  /** Reordering a top k among itself, best first, is again a possible top k. */
  lemma TopKReordered(cands: seq<Scored>, k: nat, pick: seq<Scored>, out: seq<Scored>)
    requires IsTopK(cands, k, pick)
    requires SortedDesc(out) && multiset(out) == multiset(pick)
    ensures IsTopK(cands, k, out)
  {
    var order :| IsDescendingOrder(cands, order) && pick == Head(order, k);
    var m := |pick|;
    assert |out| == m by {
      assert |multiset(out)| == |multiset(pick)|;
    }
    var rest := order[m..];
    assert order == pick + rest;
    SortedSplit(order, m);
    forall x, y | x in out && y in rest
      ensures y.similarity <= x.similarity
    {
      assert x in multiset(pick);
    }
    SortedJoin(out, rest);
    var order' := out + rest;
    assert multiset(order') == multiset(order);
    assert IsDescendingOrder(cands, order');
    assert order'[..m] == out;
  }

  /**
   * With one phrase and a corpus of distinct names, the result is itself a possible top
   * five of that phrase's candidates: min(5, passing count) rows, best first, nothing
   * left out scoring higher than anything returned.
   */
  lemma SinglePhraseTopFive(pool: seq<Course>, phrases: seq<string>, threshold: real,
                            score: (string, Course) -> real, picks: seq<seq<Scored>>, out: seq<Scored>)
    requires DistinctKeys(pool, CourseName)
    requires |phrases| == 1
    requires Recommendation(pool, phrases, threshold, score, picks, out)
    ensures IsTopK(Candidates(pool, phrases[0], threshold, score), 5, out)
  {
    var cands := Candidates(pool, phrases[0], threshold, score);
    var pick := picks[0];
    TopKProperties(cands, 5, pick);
    CandidatesDistinct(pool, phrases[0], threshold, score);
    DistinctKeysSubMultiset(pick, cands, ScoredName);
    assert Flatten(picks) == pick by {
      assert picks[..0] == [];
    }
    DropSeenOfDistinct(pick, ScoredName, {});
    assert multiset(out) == multiset(pick);
    TopKReordered(cands, 5, pick, out);
  }

  /** A corpus as loaded keeps distinct names through any language filter. */
  lemma LoadedPoolDistinct(raw: seq<RawRecord>, language: Option<string>)
    ensures DistinctKeys(ByLanguage(Load(raw), language), CourseName)
  {
  }
}
