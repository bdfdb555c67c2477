/** Retrieve: weighted-overlap similarity of every stored case against the
    observed symptoms, and the ranking of the cases by that similarity. */
module Retrieval {
  import opened Tables

  /** Symptom table rows: (symptom id, weight). */
  type SymptomTable = seq<(string, int)>

  /** Every weight in the table is non-negative. */
  predicate NonNegative(table: SymptomTable) {
    forall i :: 0 <= i < |table| ==> table[i].1 >= 0
  }

  /** No id occurs twice. */
  predicate Distinct(ids: seq<string>) {
    forall i, j :: 0 <= i < j < |ids| ==> ids[i] != ids[j]
  }

  /** Weight of a symptom id: that of the first row with this id, 0 for an
      id the table does not know. */
  function Weight(table: SymptomTable, id: string): (w: int)
    ensures (forall i :: 0 <= i < |table| ==> table[i].0 != id) ==> w == 0
    ensures NonNegative(table) ==> w >= 0
  {
    match Lookup(table, id)
    case None => 0
    case Some(v) => v
  }

  /** Sum of the weights of `ids`, once per occurrence. */
  function Total(table: SymptomTable, ids: seq<string>): int
  {
    if ids == [] then 0
    else Total(table, ids[..|ids| - 1]) + Weight(table, ids[|ids| - 1])
  }

  /** Sum of the weights of the signature entries that also occur in the
      observed list, once per occurrence in the signature. */
  function Matched(table: SymptomTable, signature: seq<string>, user: seq<string>): int
  {
    if signature == [] then 0
    else
      var k := signature[|signature| - 1];
      Matched(table, signature[..|signature| - 1], user) + (if k in user then Weight(table, k) else 0)
  }

  /** The similarity percentage: the matched weight over the average of the
      case total and the user total, times 100; 0 when that average is not
      positive. */
  function Similarity(caseTotal: int, userTotal: int, matched: int): (sim: real)
    ensures caseTotal + userTotal <= 0 ==> sim == 0.0
    ensures caseTotal + userTotal > 0 ==> sim * (caseTotal + userTotal) as real == 200.0 * matched as real
  {
    var divisor := (caseTotal + userTotal) as real / 2.0;
    if divisor > 0.0 then matched as real / divisor * 100.0 else 0.0
  }

  /** A quotient by a positive divisor is at most `k` when the dividend is at
      most `k` times the divisor. */
  lemma QuotientAtMost(m: real, d: real, k: real)
    requires d > 0.0 && m <= k * d
    ensures m / d <= k
  {
  }

  /** The bounds of the similarity: in [0, 200] when the matched weight is
      within the case total, at most 100 when it is also within the user
      total, and exactly 100 when all three agree and are positive. */
  lemma SimilarityBounds(caseTotal: int, userTotal: int, matched: int)
    requires 0 <= matched <= caseTotal && 0 <= userTotal
    ensures 0.0 <= Similarity(caseTotal, userTotal, matched) <= 200.0
    ensures matched <= userTotal ==> Similarity(caseTotal, userTotal, matched) <= 100.0
    ensures 0 < matched == caseTotal == userTotal ==> Similarity(caseTotal, userTotal, matched) == 100.0
  {
    var d := (caseTotal + userTotal) as real / 2.0;
    var m := matched as real;
    if d > 0.0 {
      assert 0.0 <= m / d by { assert m / d * d == m; }
      QuotientAtMost(m, d, 2.0);
      if matched <= userTotal {
        QuotientAtMost(m, d, 1.0);
      }
      if 0 < matched == caseTotal == userTotal {
        assert d == m;
      }
    }
  }

  /** One entry of the result: the case id, its similarity, its solution id
      and its signature split on ','. */
  datatype Scored = Scored(id: string, similarity: real, solution: string, symptoms: seq<string>)

  /** The entry for one case. */
  function Score(table: SymptomTable, user: seq<string>, c: Case): Scored
  {
    var signature := Split(c.signature);
    Scored(c.id, Similarity(Total(table, signature), Total(table, user), Matched(table, signature, user)),
           c.solution, signature)
  }

  /** The entries of all cases, before sorting: one per case, in case-base order. */
  function ScoreAll(table: SymptomTable, user: seq<string>, cases: seq<Case>): (r: seq<Scored>)
    ensures |r| == |cases|
    ensures forall i :: 0 <= i < |cases| ==> r[i] == Score(table, user, cases[i])
  {
    if cases == [] then []
    else ScoreAll(table, user, cases[..|cases| - 1]) + [Score(table, user, cases[|cases| - 1])]
  }

  // ---------------------------------------------------------------------
  // Ranking: a stable sort on similarity, largest first
  // ---------------------------------------------------------------------

  predicate SortedDesc(s: seq<Scored>) {
    forall i, j :: 0 <= i < j < |s| ==> s[i].similarity >= s[j].similarity
  }

  /** The entries of `s` whose similarity is `v`, in their order in `s`. */
  function WithScore(s: seq<Scored>, v: real): seq<Scored>
  {
    if s == [] then []
    else (if s[0].similarity == v then [s[0]] else []) + WithScore(s[1..], v)
  }

  /** Places `x` in front of the first entry whose similarity is not larger. */
  function Insert(x: Scored, t: seq<Scored>): (r: seq<Scored>)
    ensures |r| == |t| + 1
    ensures multiset(r) == multiset(t) + multiset{x}
  {
    if t == [] || t[0].similarity <= x.similarity then [x] + t
    else
      assert t == [t[0]] + t[1..];
      [t[0]] + Insert(x, t[1..])
  }

  /** The list sort keyed on similarity with `reverse=True`, which is stable:
      entries with equal similarity keep their relative order. */
  function StableSortDesc(s: seq<Scored>): (r: seq<Scored>)
    ensures |r| == |s|
    ensures multiset(r) == multiset(s)
  {
    if s == [] then []
    else
      assert s == [s[0]] + s[1..];
      Insert(s[0], StableSortDesc(s[1..]))
  }

  /** What the engine returns for an observed list and a case base. */
  function Ranked(table: SymptomTable, user: seq<string>, cases: seq<Case>): seq<Scored>
  {
    StableSortDesc(ScoreAll(table, user, cases))
  }

  /** Inserting an entry no larger than `b` into entries no larger than `b`
      gives entries no larger than `b`. */
  lemma {:induction false} InsertBounded(x: Scored, t: seq<Scored>, b: real)
    requires x.similarity <= b
    requires forall j :: 0 <= j < |t| ==> t[j].similarity <= b
    ensures forall j :: 0 <= j < |Insert(x, t)| ==> Insert(x, t)[j].similarity <= b
  {
    if t != [] && t[0].similarity > x.similarity {
      InsertBounded(x, t[1..], b);
      assert Insert(x, t) == [t[0]] + Insert(x, t[1..]);
    }
  }

  lemma {:induction false} InsertSorted(x: Scored, t: seq<Scored>)
    requires SortedDesc(t)
    ensures SortedDesc(Insert(x, t))
  {
    if t != [] && t[0].similarity > x.similarity {
      var rest := Insert(x, t[1..]);
      InsertSorted(x, t[1..]);
      InsertBounded(x, t[1..], t[0].similarity);
      assert Insert(x, t) == [t[0]] + rest;
    }
  }

  /** The ranking is ordered by similarity, largest first. */
  lemma {:induction false} StableSortDescSorted(s: seq<Scored>)
    ensures SortedDesc(StableSortDesc(s))
  {
    if s != [] {
      StableSortDescSorted(s[1..]);
      InsertSorted(s[0], StableSortDesc(s[1..]));
    }
  }

  lemma {:induction false} WithScoreConcat(a: seq<Scored>, b: seq<Scored>, v: real)
    ensures WithScore(a + b, v) == WithScore(a, v) + WithScore(b, v)
  {
    if a == [] {
      assert a + b == b;
    } else {
      assert (a + b)[1..] == a[1..] + b;
      WithScoreConcat(a[1..], b, v);
    }
  }

  lemma WithScoreSingle(e: Scored, v: real)
    ensures WithScore([e], v) == if e.similarity == v then [e] else []
  {
    assert [e][1..] == [];
  }

  /** Two blocks of which at most one is non-empty can be swapped. */
  lemma SwapWhenOneEmpty(a: seq<Scored>, b: seq<Scored>, rest: seq<Scored>)
    requires a == [] || b == []
    ensures a + (b + rest) == b + (a + rest)
  {
    if a == [] {
      assert a + (b + rest) == b + rest;
    } else {
      assert b + (a + rest) == a + rest;
    }
  }

  lemma {:induction false} InsertStable(x: Scored, t: seq<Scored>, v: real)
    ensures WithScore(Insert(x, t), v) == WithScore([x] + t, v)
  {
    if t != [] && t[0].similarity > x.similarity {
      var rest := t[1..];
      var ins := Insert(x, rest);
      assert Insert(x, t) == [t[0]] + ins;
      assert t == [t[0]] + rest;
      InsertStable(x, rest, v);
      WithScoreConcat([t[0]], ins, v);
      WithScoreConcat([x], rest, v);
      WithScoreConcat([t[0]], rest, v);
      WithScoreConcat([x], t, v);
      WithScoreSingle(t[0], v);
      WithScoreSingle(x, v);
      // x and t[0] have different similarities, so at most one of them is kept
      SwapWhenOneEmpty(WithScore([t[0]], v), WithScore([x], v), WithScore(rest, v));
    }
  }

  /** One step of the stability proof: inserting `x` into a list that keeps
      the order of `rest` within every score keeps the order of `[x] + rest`. */
  lemma InsertKeepsOrder(x: Scored, t: seq<Scored>, rest: seq<Scored>, v: real)
    requires WithScore(t, v) == WithScore(rest, v)
    ensures WithScore(Insert(x, t), v) == WithScore([x] + rest, v)
  {
    InsertStable(x, t, v);
    WithScoreConcat([x], t, v);
    WithScoreConcat([x], rest, v);
  }

  /** Stability: for every similarity value, the entries with that value
      appear in the ranking in the same order as in the input. */
  lemma {:induction false} StableSortDescStable(s: seq<Scored>, v: real)
    ensures WithScore(StableSortDesc(s), v) == WithScore(s, v)
  {
    if s != [] {
      StableSortDescStable(s[1..], v);
      InsertKeepsOrder(s[0], StableSortDesc(s[1..]), s[1..], v);
      assert s == [s[0]] + s[1..];
    }
  }

  // ---------------------------------------------------------------------
  // The engine as the program runs it
  // ---------------------------------------------------------------------

  /** Sums the user's weights, scores every case in case-base order,
      appending one entry per case, then sorts the entries by similarity,
      largest first. */
  method Retrieve(user: seq<string>, cases: seq<Case>, table: SymptomTable) returns (results: seq<Scored>)
    ensures results == Ranked(table, user, cases)
    ensures |results| == |cases|
    ensures SortedDesc(results)
    ensures multiset(results) == multiset(ScoreAll(table, user, cases))
    ensures forall v :: WithScore(results, v) == WithScore(ScoreAll(table, user, cases), v)
  {
    var userTotal := 0;
    var i := 0;
    while i < |user|
      invariant 0 <= i <= |user|
      invariant userTotal == Total(table, user[..i])
    {
      var w := Lookup(table, user[i]);
      if w.Some? {
        userTotal := userTotal + w.value;
      }
      assert user[..i + 1][..i] == user[..i];
      i := i + 1;
    }
    assert user[..|user|] == user;

    var unsorted: seq<Scored> := [];
    var n := 0;
    while n < |cases|
      invariant 0 <= n <= |cases|
      invariant |unsorted| == n
      invariant forall k :: 0 <= k < n ==> unsorted[k] == Score(table, user, cases[k])
    {
      var entry := ScoreCase(user, userTotal, cases[n], table);
      unsorted := unsorted + [entry];
      n := n + 1;
    }
    assert unsorted == ScoreAll(table, user, cases);

    results := StableSortDesc(unsorted);
    StableSortDescSorted(unsorted);
    forall v
      ensures WithScore(results, v) == WithScore(unsorted, v)
    {
      StableSortDescStable(unsorted, v);
    }
  }

  /** The body of the case loop: splits the signature, sums the case's weights
      and the matched weights over it, and divides. */
  method ScoreCase(user: seq<string>, userTotal: int, c: Case, table: SymptomTable) returns (entry: Scored)
    requires userTotal == Total(table, user)
    ensures entry == Score(table, user, c)
  {
    var signature := Split(c.signature);
    var matched, caseTotal := 0, 0;
    var j := 0;
    while j < |signature|
      invariant 0 <= j <= |signature|
      invariant caseTotal == Total(table, signature[..j])
      invariant matched == Matched(table, signature[..j], user)
    {
      var w := Lookup(table, signature[j]);
      if w.Some? {
        caseTotal := caseTotal + w.value;
        if signature[j] in user {
          matched := matched + w.value;
        }
      }
      assert signature[..j + 1][..j] == signature[..j];
      assert (if w.Some? then w.value else 0) == Weight(table, signature[j]);
      j := j + 1;
    }
    assert signature[..|signature|] == signature;

    var divisor := (caseTotal + userTotal) as real / 2.0;
    var similarity := if divisor > 0.0 then matched as real / divisor * 100.0 else 0.0;
    assert similarity == Similarity(caseTotal, userTotal, matched);
    entry := Scored(c.id, similarity, c.solution, signature);
  }

  // ---------------------------------------------------------------------
  // Properties of the score
  // ---------------------------------------------------------------------

  lemma {:induction false} TotalNonNegative(table: SymptomTable, ids: seq<string>)
    requires NonNegative(table)
    ensures Total(table, ids) >= 0
  {
    if ids != [] {
      TotalNonNegative(table, ids[..|ids| - 1]);
    }
  }

  /** The weight of an id is that of the first table row carrying it. */
  lemma WeightFirstMatch(table: SymptomTable, id: string, i: nat)
    requires i < |table| && table[i].0 == id
    requires forall j :: 0 <= j < i ==> table[j].0 != id
    ensures Weight(table, id) == table[i].1
  {
    var r := Lookup(table, id);
    assert r.Some?;
    var i' :| 0 <= i' < |table| && table[i'] == (id, r.value) && forall j :: 0 <= j < i' ==> table[j].0 != id;
    assert i' == i;
  }

  /** Totals add up over concatenation: every occurrence of an id counts,
      so an id listed twice contributes its weight twice. */
  lemma {:induction false} TotalConcat(table: SymptomTable, a: seq<string>, b: seq<string>)
    ensures Total(table, a + b) == Total(table, a) + Total(table, b)
  {
    if b == [] {
      assert a + b == a;
    } else {
      var init, last := b[..|b| - 1], b[|b| - 1];
      var ab := a + b;
      TotalConcat(table, a, init);
      assert ab[..|ab| - 1] == a + init && ab[|ab| - 1] == last;
      assert Total(table, ab) == Total(table, a + init) + Weight(table, last);
      assert Total(table, b) == Total(table, init) + Weight(table, last);
    }
  }

  /** The matched weight never exceeds the case's own total. */
  lemma {:induction false} MatchedWithinCaseTotal(table: SymptomTable, signature: seq<string>, user: seq<string>)
    requires NonNegative(table)
    ensures 0 <= Matched(table, signature, user) <= Total(table, signature)
  {
    if signature != [] {
      MatchedWithinCaseTotal(table, signature[..|signature| - 1], user);
    }
  }

  /** Nothing observed, nothing matched. */
  lemma {:induction false} MatchedNothingObserved(table: SymptomTable, signature: seq<string>)
    ensures Matched(table, signature, []) == 0
  {
    if signature != [] {
      MatchedNothingObserved(table, signature[..|signature| - 1]);
    }
  }

  /** When every signature entry was observed, the whole case total matches. */
  lemma {:induction false} MatchedAllObserved(table: SymptomTable, signature: seq<string>, user: seq<string>)
    requires forall k :: k in signature ==> k in user
    ensures Matched(table, signature, user) == Total(table, signature)
  {
    if signature != [] {
      var init := signature[..|signature| - 1];
      assert forall k :: k in init ==> k in signature;
      MatchedAllObserved(table, init, user);
    }
  }

  /** Observing one more id that is not in the signature leaves the matched
      weight unchanged. */
  lemma {:induction false} MatchedIgnoresUnrelated(table: SymptomTable, signature: seq<string>, user: seq<string>, x: string)
    requires x !in signature
    ensures Matched(table, signature, user + [x]) == Matched(table, signature, user)
  {
    if signature != [] {
      var init := signature[..|signature| - 1];
      assert x !in init by {
        assert forall k :: k in init ==> k in signature;
      }
      MatchedIgnoresUnrelated(table, init, user, x);
    }
  }

  /** Observing a new id adds its weight to the matched weight exactly when
      it is in a duplicate-free signature. */
  lemma {:induction false} MatchedGainsNew(table: SymptomTable, signature: seq<string>, user: seq<string>, x: string)
    requires Distinct(signature)
    requires x !in user
    ensures Matched(table, signature, user + [x]) ==
            Matched(table, signature, user) + (if x in signature then Weight(table, x) else 0)
  {
    if signature != [] {
      var init := signature[..|signature| - 1];
      var k := signature[|signature| - 1];
      assert Distinct(init);
      MatchedGainsNew(table, init, user, x);
      assert signature == init + [k];
      assert k == x ==> x !in init;
    }
  }

  /** With both lists duplicate-free, the matched weight never exceeds the
      user's total. */
  lemma {:induction false} MatchedWithinUserTotal(table: SymptomTable, signature: seq<string>, user: seq<string>)
    requires NonNegative(table)
    requires Distinct(signature) && Distinct(user)
    ensures Matched(table, signature, user) <= Total(table, user)
  {
    if user == [] {
      MatchedNothingObserved(table, signature);
    } else {
      var init := user[..|user| - 1];
      var x := user[|user| - 1];
      assert Distinct(init);
      assert x !in init;
      MatchedWithinUserTotal(table, signature, init);
      assert user == init + [x];
      MatchedGainsNew(table, signature, init, x);
    }
  }

  /** With non-negative weights every similarity lies in [0, 200]. */
  lemma ScoreInRange(table: SymptomTable, user: seq<string>, c: Case)
    requires NonNegative(table)
    ensures 0.0 <= Score(table, user, c).similarity <= 200.0
  {
    var signature := Split(c.signature);
    MatchedWithinCaseTotal(table, signature, user);
    TotalNonNegative(table, user);
    SimilarityBounds(Total(table, signature), Total(table, user), Matched(table, signature, user));
  }

  /** With non-negative weights and duplicate-free lists it is at most 100. */
  lemma ScoreAtMost100(table: SymptomTable, user: seq<string>, c: Case)
    requires NonNegative(table)
    requires Distinct(user) && Distinct(Split(c.signature))
    ensures 0.0 <= Score(table, user, c).similarity <= 100.0
  {
    var signature := Split(c.signature);
    MatchedWithinCaseTotal(table, signature, user);
    MatchedWithinUserTotal(table, signature, user);
    TotalNonNegative(table, user);
    SimilarityBounds(Total(table, signature), Total(table, user), Matched(table, signature, user));
  }

  /** Observing exactly the case's own signature scores 100 when its weight is positive. */
  lemma ExactMatchScores100(table: SymptomTable, c: Case)
    requires Total(table, Split(c.signature)) > 0
    ensures Score(table, Split(c.signature), c).similarity == 100.0
  {
    var signature := Split(c.signature);
    MatchedAllObserved(table, signature, signature);
    var t := Total(table, signature);
    SimilarityBounds(t, t, t);
  }

  /** An empty observation scores 0 against every case. */
  lemma EmptyObservationScoresZero(table: SymptomTable, c: Case)
    ensures Score(table, [], c).similarity == 0.0
  {
    MatchedNothingObserved(table, Split(c.signature));
  }

  /** The noise penalty: observing one more symptom that the case does not
      have, with a non-negative weight, never raises that case's similarity. */
  lemma NoiseNeverRaises(table: SymptomTable, user: seq<string>, c: Case, x: string)
    requires NonNegative(table)
    requires x !in Split(c.signature)
    ensures Score(table, user + [x], c).similarity <= Score(table, user, c).similarity
  {
    var signature := Split(c.signature);
    MatchedIgnoresUnrelated(table, signature, user, x);
    MatchedWithinCaseTotal(table, signature, user);
    TotalNonNegative(table, user);
    assert (user + [x])[..|user|] == user;
    var cT, u, u2, m := Total(table, signature), Total(table, user), Total(table, user + [x]), Matched(table, signature, user);
    assert u2 == u + Weight(table, x) && u <= u2;
    SimilarityAntitone(cT, u, u2, m);
  }

  lemma SimilarityAntitone(caseTotal: int, u: int, u2: int, matched: int)
    requires 0 <= matched <= caseTotal && 0 <= u <= u2
    ensures Similarity(caseTotal, u2, matched) <= Similarity(caseTotal, u, matched)
  {
    if caseTotal + u > 0 {
      var d, d2 := (caseTotal + u) as real / 2.0, (caseTotal + u2) as real / 2.0;
      var m := matched as real;
      var q := m / d;
      assert q * d == m;
      assert q >= 0.0;
      assert q * (d2 - d) >= 0.0;
      QuotientAtMost(m, d2, q);
    }
  }

  /** The ranking puts a largest similarity first. */
  lemma TopIsBest(table: SymptomTable, user: seq<string>, cases: seq<Case>, k: nat)
    requires k < |cases|
    ensures Ranked(table, user, cases)[0].similarity >= Score(table, user, cases[k]).similarity
  {
    var all := ScoreAll(table, user, cases);
    var r := Ranked(table, user, cases);
    StableSortDescSorted(all);
    assert all[k] in multiset(r);
    var j :| 0 <= j < |r| && r[j] == all[k];
  }

  /** The first entry of `s` with similarity `v` heads the selection of `v`. */
  lemma {:induction false} WithScoreFirst(s: seq<Scored>, v: real, j: nat)
    requires j < |s| && s[j].similarity == v
    requires forall k :: 0 <= k < j ==> s[k].similarity != v
    ensures WithScore(s, v) != [] && WithScore(s, v)[0] == s[j]
  {
    if j > 0 {
      WithScoreFirst(s[1..], v, j - 1);
    }
  }

  /** Among the entries with similarity `v` there is an earliest one. */
  lemma {:induction false} EarliestWithScore(s: seq<Scored>, v: real, i: nat) returns (j: nat)
    requires i < |s| && s[i].similarity == v
    ensures j <= i && s[j].similarity == v
    ensures forall k :: 0 <= k < j ==> s[k].similarity != v
    decreases i
  {
    if k :| 0 <= k < i && s[k].similarity == v {
      j := EarliestWithScore(s, v, k);
    } else {
      j := i;
    }
  }

  /** The sort puts first the earliest entry of largest similarity. */
  lemma SortTopIsEarliestBest(s: seq<Scored>, j: nat)
    requires j < |s|
    requires forall k :: 0 <= k < |s| ==> s[k].similarity <= s[j].similarity
    requires forall k :: 0 <= k < j ==> s[k].similarity < s[j].similarity
    ensures StableSortDesc(s)[0] == s[j]
  {
    var r := StableSortDesc(s);
    var v := s[j].similarity;
    StableSortDescSorted(s);
    assert s[j] in multiset(r);
    assert r[0] in multiset(s);
    assert r[0].similarity == v;
    StableSortDescStable(s, v);
    WithScoreFirst(r, v, 0);
    WithScoreFirst(s, v, j);
  }

  /** Ties go to case-base order: when case `j` has the largest similarity and
      every earlier case scores strictly less, case `j` heads the ranking. */
  lemma RankedTopIsEarliestBest(table: SymptomTable, user: seq<string>, cases: seq<Case>, j: nat)
    requires j < |cases|
    requires forall k :: 0 <= k < |cases| ==> Score(table, user, cases[k]).similarity <= Score(table, user, cases[j]).similarity
    requires forall k :: 0 <= k < j ==> Score(table, user, cases[k]).similarity < Score(table, user, cases[j]).similarity
    ensures Ranked(table, user, cases)[0] == Score(table, user, cases[j])
  {
    SortTopIsEarliestBest(ScoreAll(table, user, cases), j);
  }

  /** The first entry of the sort scores at least every input entry and is
      one of them. */
  lemma SortTopBounds(s: seq<Scored>)
    requires s != []
    ensures forall k :: 0 <= k < |s| ==> s[k].similarity <= StableSortDesc(s)[0].similarity
    ensures StableSortDesc(s)[0] in s
  {
    var r := StableSortDesc(s);
    StableSortDescSorted(s);
    forall k | 0 <= k < |s|
      ensures s[k].similarity <= r[0].similarity
    {
      assert s[k] in multiset(r);
    }
    assert r[0] in multiset(s);
  }

  /** An entry appended after the others and scoring no more than the current
      first one does not displace it, even on a tie. */
  lemma SortTopKeptByNoLargerLater(s: seq<Scored>, e: Scored)
    requires s != [] && e.similarity <= StableSortDesc(s)[0].similarity
    ensures StableSortDesc(s + [e])[0] == StableSortDesc(s)[0]
  {
    var top := StableSortDesc(s)[0];
    var v := top.similarity;
    SortTopBounds(s);
    var i :| 0 <= i < |s| && s[i] == top;
    var j := EarliestWithScore(s, v, i);
    SortTopIsEarliestBest(s, j);
    var t := s + [e];
    assert t[j] == s[j];
    forall k | 0 <= k < |t|
      ensures t[k].similarity <= t[j].similarity
      ensures k < j ==> t[k].similarity < t[j].similarity
    {
      if k < |s| {
        assert t[k] == s[k];
      }
    }
    SortTopIsEarliestBest(t, j);
  }

  /** A case appended to the case base whose score does not exceed the current
      top leaves the top entry unchanged. */
  lemma RankedTopKeptByNoLargerCase(table: SymptomTable, user: seq<string>, cases: seq<Case>, c: Case)
    requires cases != []
    requires Score(table, user, c).similarity <= Ranked(table, user, cases)[0].similarity
    ensures Ranked(table, user, cases + [c])[0] == Ranked(table, user, cases)[0]
  {
    assert (cases + [c])[..|cases|] == cases;
    assert ScoreAll(table, user, cases + [c]) == ScoreAll(table, user, cases) + [Score(table, user, c)];
    SortTopKeptByNoLargerLater(ScoreAll(table, user, cases), Score(table, user, c));
  }

  /** Symptoms G01, G02, G03 weighing 5, 3 and 2; case K01 with signature
      "G01,G02"; observed G01: 5 / ((8 + 5) / 2) * 100 = 1000/13, about 76.9. */
  lemma WorkedExample()
    ensures Score([("G01", 5), ("G02", 3), ("G03", 2)], ["G01"], Case("K01", "G01,G02", "S01")).similarity
            == 1000.0 / 13.0
  {
    var table := [("G01", 5), ("G02", 3), ("G03", 2)];
    assert Split("G01,G02") == ["G01", "G02"] by {
      SplitAfterPiece("G01", "G02");
      SplitCommaFree("G02");
      assert "G01,G02" == "G01" + "," + "G02";
    }
    assert Weight(table, "G01") == 5;
    assert Weight(table, "G02") == 3;
    assert ["G01", "G02"][..1] == ["G01"];
    assert Total(table, ["G01", "G02"]) == 8;
    assert Total(table, ["G01"]) == 5;
    assert "G02" !in ["G01"];
    assert Matched(table, ["G01", "G02"], ["G01"]) == 5;
  }
}
