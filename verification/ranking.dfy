/** The aggregate ranking of the rated areas: one statistics tuple per label
    that received scores, sorted in descending tuple order, and the three best
    and three worst entries of that ranking. */
module Ranking {
  import opened Wrappers
  import opened Text
  import opened Tables
  import opened Stats
  import opened Sorting
  import opened Ratings

  /** The tuple (mean, spread, label, count) built for one label. The spread
      is the variance; the square root that turns it into a standard
      deviation is increasing, so it orders tuples the same way. */
  datatype RankedStat = RankedStat(mean: real, variance: real, question: Label, count: nat)

  /** `e` is the tuple of question `e.question` computed from its series in
      `ratings`. */
  predicate Describes(e: RankedStat, ratings: map<Label, seq<int>>) {
    && Series(ratings, e.question) != []
    && e.count == |Series(ratings, e.question)|
    && CalculateStats(Series(ratings, e.question)) == Some(Summary(e.mean, e.variance))
  }

  /** The entries name pairwise different labels. */
  predicate DistinctLabels(r: seq<RankedStat>) {
    forall a, b :: 0 <= a < b < |r| ==> r[a].question != r[b].question
  }

  /** The loop over the labels in declared order from position `k` on: one
      tuple per label whose series is non-empty. */
  function LabelStats(ratings: map<Label, seq<int>>, k: nat): (r: seq<RankedStat>)
    decreases |Questions| - k
  {
    if k >= |Questions| then []
    else
      var l := Questions[k];
      var xs := Series(ratings, l);
      var rest := LabelStats(ratings, k + 1);
      if xs == [] then rest
      else
        var s := CalculateStats(xs).value;
        [RankedStat(s.mean, s.variance, l, |xs|)] + rest
  }

  /** The labels from position `k` on in declared order. */
  predicate LabelFrom(l: Label, k: nat) {
    exists i :: k <= i < |Questions| && Questions[i] == l
  }

  /** Every tuple from position `k` on is that of a label from `k` on. */
  lemma {:induction false} LabelStatsFrom(ratings: map<Label, seq<int>>, k: nat)
    ensures forall j :: 0 <= j < |LabelStats(ratings, k)| ==> LabelFrom(LabelStats(ratings, k)[j].question, k)
    decreases |Questions| - k
  {
    if k < |Questions| {
      LabelStatsFrom(ratings, k + 1);
      var r, rest := LabelStats(ratings, k), LabelStats(ratings, k + 1);
      forall j | 0 <= j < |rest|
        ensures LabelFrom(rest[j].question, k)
      {
        var i :| k + 1 <= i < |Questions| && Questions[i] == rest[j].question;
      }
    }
  }

  /** Every label from position `k` on that received scores has a tuple. */
  lemma {:induction false} LabelStatsCover(ratings: map<Label, seq<int>>, k: nat, i: nat)
    requires k <= i < |Questions| && Series(ratings, Questions[i]) != []
    ensures exists j :: 0 <= j < |LabelStats(ratings, k)| && LabelStats(ratings, k)[j].question == Questions[i]
    decreases |Questions| - k
  {
    var r := LabelStats(ratings, k);
    if Series(ratings, Questions[k]) != [] {
      if i == k {
        assert r[0].question == Questions[i];
      } else {
        LabelStatsCover(ratings, k + 1, i);
        var rest := LabelStats(ratings, k + 1);
        var j :| 0 <= j < |rest| && rest[j].question == Questions[i];
        assert r[j + 1] == rest[j];
      }
    } else {
      LabelStatsCover(ratings, k + 1, i);
    }
  }

  /** Each label has at most one tuple. */
  lemma {:induction false} LabelStatsDistinct(ratings: map<Label, seq<int>>, k: nat)
    ensures DistinctLabels(LabelStats(ratings, k))
    decreases |Questions| - k
  {
    if k < |Questions| {
      LabelStatsDistinct(ratings, k + 1);
      LabelStatsFrom(ratings, k + 1);
      var r, rest := LabelStats(ratings, k), LabelStats(ratings, k + 1);
      var l := Questions[k];
      if Series(ratings, l) != [] {
        forall j | 0 <= j < |rest|
          ensures rest[j].question != l
        {
          var i :| k + 1 <= i < |Questions| && Questions[i] == rest[j].question;
          QuestionsDistinct(i, k);
        }
        assert r[1..] == rest;
      }
    }
  }

  /** `b` strictly precedes `a` in code-point order. */
  predicate NameLt(b: string, a: string) {
    LexLe(b, a) && b != a
  }

  /** Python's `a >= b` on (mean, spread, label, count) tuples: the first
      component that differs decides. */
  predicate RankGe(a: RankedStat, b: RankedStat) {
    || a.mean > b.mean
    || (a.mean == b.mean && a.variance > b.variance)
    || (a.mean == b.mean && a.variance == b.variance && NameLt(Name(b.question), Name(a.question)))
    || (a.mean == b.mean && a.variance == b.variance && Name(a.question) == Name(b.question) && a.count >= b.count)
  }

  /** Tuple order is total, transitive and antisymmetric, so a list sorted by
      it in descending order is unique. */
  lemma RankGeOrders()
    ensures TotalPreorder(RankGe) && Antisymmetric(RankGe)
  {
    forall a, b
      ensures RankGe(a, b) || RankGe(b, a)
    {
      LexLeTotal(Name(a.question), Name(b.question));
    }
    forall a, b, c | RankGe(a, b) && RankGe(b, c)
      ensures RankGe(a, c)
    {
      var na, nb, nc := Name(a.question), Name(b.question), Name(c.question);
      if a.mean == b.mean == c.mean && a.variance == b.variance == c.variance {
        if NameLt(nb, na) && NameLt(nc, nb) {
          LexLeTransitive(nc, nb, na);
          if nc == na {
            LexLeAntisymmetric(nc, nb);
          }
        }
      }
    }
    forall a, b | RankGe(a, b) && RankGe(b, a)
      ensures a == b
    {
      if Name(a.question) != Name(b.question) {
        LexLeAntisymmetric(Name(a.question), Name(b.question));
      } else if a.question != b.question {
        NamesDistinct(a.question, b.question);
      }
    }
  }

  /** `sorted_ratings` after `sort(reverse=True)`. */
  function Rank(ratings: map<Label, seq<int>>): (r: seq<RankedStat>)
    ensures SortedBy(r, RankGe)
    ensures multiset(r) == multiset(LabelStats(ratings, 0))
  {
    RankGeOrders();
    InsertionSort(LabelStats(ratings, 0), RankGe)
  }

  lemma TwiceCounted<T>(s: seq<T>, a: nat, b: nat)
    requires a < b < |s| && s[a] == s[b]
    ensures multiset(s)[s[a]] >= 2
  {
    assert s == s[..b] + s[b..];
    assert s[a] == s[..b][a];
    assert s[b] == s[b..][0];
  }

  lemma {:induction false} OnceCounted<T>(s: seq<T>, x: T)
    requires forall i, j :: 0 <= i < j < |s| ==> s[i] != s[j]
    ensures multiset(s)[x] <= 1
    decreases |s|
  {
    if |s| > 0 {
      assert s == [s[0]] + s[1..];
      OnceCounted(s[1..], x);
      if x == s[0] {
        assert x !in s[1..];
      }
    }
  }

  /** Sorting keeps the tuples: each ranked entry is a label tuple and each
      label tuple is ranked. */
  lemma RankingMembers(ratings: map<Label, seq<int>>)
    ensures forall j :: 0 <= j < |Rank(ratings)| ==> Rank(ratings)[j] in LabelStats(ratings, 0)
    ensures forall j :: 0 <= j < |LabelStats(ratings, 0)| ==> LabelStats(ratings, 0)[j] in Rank(ratings)
  {
    var l, r := LabelStats(ratings, 0), Rank(ratings);
    forall j | 0 <= j < |r|
      ensures r[j] in l
    {
      assert r[j] in multiset(r);
    }
    forall j | 0 <= j < |l|
      ensures l[j] in r
    {
      assert l[j] in multiset(l);
    }
  }

  /** Reordering keeps the labels pairwise different. */
  lemma PermutationKeepsDistinctLabels(l: seq<RankedStat>, r: seq<RankedStat>)
    requires multiset(l) == multiset(r) && DistinctLabels(l)
    ensures DistinctLabels(r)
  {
    forall a, b | 0 <= a < b < |r|
      ensures r[a].question != r[b].question
    {
      if r[a].question == r[b].question {
        assert r[a] in multiset(l) && r[b] in multiset(l);
        var x :| 0 <= x < |l| && l[x] == r[a];
        var y :| 0 <= y < |l| && l[y] == r[b];
        assert x == y;
        TwiceCounted(r, a, b);
        OnceCounted(l, r[a]);
        assert false;
      }
    }
  }

  /** Every tuple from position `k` on carries the statistics of its label's
      series. */
  lemma {:induction false} LabelStatsDescribe(ratings: map<Label, seq<int>>, k: nat)
    ensures forall j :: 0 <= j < |LabelStats(ratings, k)| ==> Describes(LabelStats(ratings, k)[j], ratings)
    decreases |Questions| - k
  {
    if k < |Questions| {
      LabelStatsDescribe(ratings, k + 1);
      var r, rest := LabelStats(ratings, k), LabelStats(ratings, k + 1);
      if Series(ratings, Questions[k]) != [] {
        assert r[1..] == rest;
      }
    }
  }

  /** The label loop yields the tuples of the scored labels from position `k`
      on, in declared order: each tuple describes its label's series, the
      labels' positions strictly increase, and every scored label from `k` on
      has a tuple. */
  lemma LabelStatsInOrder(ratings: map<Label, seq<int>>, k: nat)
    ensures forall j :: 0 <= j < |LabelStats(ratings, k)| ==>
              Describes(LabelStats(ratings, k)[j], ratings) && k <= Position(LabelStats(ratings, k)[j].question)
    ensures forall a, b :: 0 <= a < b < |LabelStats(ratings, k)| ==>
              Position(LabelStats(ratings, k)[a].question) < Position(LabelStats(ratings, k)[b].question)
    ensures forall l :: k <= Position(l) && Series(ratings, l) != [] ==>
              exists j :: 0 <= j < |LabelStats(ratings, k)| && LabelStats(ratings, k)[j].question == l
  {
    LabelStatsDescribe(ratings, k);
    LabelStatsPositions(ratings, k);
    forall l | k <= Position(l) && Series(ratings, l) != []
      ensures exists j :: 0 <= j < |LabelStats(ratings, k)| && LabelStats(ratings, k)[j].question == l
    {
      LabelStatsCover(ratings, k, Position(l));
    }
  }

  /** The tuples from position `k` on name labels from `k` on, in strictly
      increasing declared position. */
  lemma {:induction false} LabelStatsPositions(ratings: map<Label, seq<int>>, k: nat)
    ensures forall j :: 0 <= j < |LabelStats(ratings, k)| ==> k <= Position(LabelStats(ratings, k)[j].question)
    ensures forall a, b :: 0 <= a < b < |LabelStats(ratings, k)| ==>
              Position(LabelStats(ratings, k)[a].question) < Position(LabelStats(ratings, k)[b].question)
    decreases |Questions| - k
  {
    if k < |Questions| {
      LabelStatsPositions(ratings, k + 1);
      var r, rest := LabelStats(ratings, k), LabelStats(ratings, k + 1);
      PositionOf(k);
      if Series(ratings, Questions[k]) != [] {
        assert r[1..] == rest;
        assert Position(r[0].question) == k;
      }
    }
  }

  /** Each ranked entry carries the statistics of its label's series, and no
      label is ranked twice. */
  lemma RankingEntries(ratings: map<Label, seq<int>>)
    ensures forall j :: 0 <= j < |Rank(ratings)| ==> Describes(Rank(ratings)[j], ratings)
    ensures DistinctLabels(Rank(ratings))
  {
    var l, r := LabelStats(ratings, 0), Rank(ratings);
    RankingMembers(ratings);
    LabelStatsDescribe(ratings, 0);
    LabelStatsDistinct(ratings, 0);
    PermutationKeepsDistinctLabels(l, r);
  }

  /** A label is ranked exactly when it received scores. */
  lemma RankingCovers(ratings: map<Label, seq<int>>, l: Label)
    ensures Series(ratings, l) != [] <==> exists j :: 0 <= j < |Rank(ratings)| && Rank(ratings)[j].question == l
  {
    if Series(ratings, l) != [] {
      ScoredLabelRanked(ratings, l);
    } else {
      RankedLabelScored(ratings, l);
    }
  }

  lemma ScoredLabelRanked(ratings: map<Label, seq<int>>, l: Label)
    requires Series(ratings, l) != []
    ensures exists j :: 0 <= j < |Rank(ratings)| && Rank(ratings)[j].question == l
  {
    var stats, r := LabelStats(ratings, 0), Rank(ratings);
    QuestionsListed(l);
    var i :| IsQuestionIndex(i) && Questions[i] == l;
    LabelStatsCover(ratings, 0, i);
    var j :| 0 <= j < |stats| && stats[j].question == l;
    assert stats[j] in multiset(stats);
    assert stats[j] in r;
  }

  lemma RankedLabelScored(ratings: map<Label, seq<int>>, l: Label)
    ensures (exists j :: 0 <= j < |Rank(ratings)| && Rank(ratings)[j].question == l) ==> Series(ratings, l) != []
  {
    var r := Rank(ratings);
    if exists j :: 0 <= j < |r| && r[j].question == l {
      var j :| 0 <= j < |r| && r[j].question == l;
      RankingEntries(ratings);
      assert Describes(r[j], ratings);
    }
  }

  /** The means never increase along the ranking. */
  lemma RankingMeansDescend(ratings: map<Label, seq<int>>)
    ensures forall a, b :: 0 <= a < b < |Rank(ratings)| ==> Rank(ratings)[a].mean >= Rank(ratings)[b].mean
  {
  }

  function Min(a: int, b: int): int {
    if a <= b then a else b
  }

  /** `sorted_ratings[:3]`. */
  function Top<T>(r: seq<T>): (t: seq<T>)
    ensures |t| == Min(3, |r|) && t == r[..|t|]
  {
    r[..Min(3, |r|)]
  }

  /** `sorted_ratings[-3:]`. */
  function Bottom<T>(r: seq<T>): (t: seq<T>)
    ensures |t| == Min(3, |r|) && t == r[|r| - |t|..]
  {
    r[|r| - Min(3, |r|)..]
  }

  /** Every entry of the top three ranks at least as high as every entry
      after it. */
  lemma TopOutranksRest(r: seq<RankedStat>)
    requires SortedBy(r, RankGe)
    ensures forall a, b :: 0 <= a < |Top(r)| <= b < |r| ==> RankGe(r[a], r[b]) && r[a].mean >= r[b].mean
  {
  }

  /** For a list without repeats, the top three and the bottom three share an
      entry exactly when the list is non-empty and shorter than six. */
  lemma TopBottomShareIffShort<T>(r: seq<T>)
    requires forall a, b :: 0 <= a < b < |r| ==> r[a] != r[b]
    ensures (exists x :: x in Top(r) && x in Bottom(r)) <==> 0 < |r| < 6
  {
    var n := |r|;
    if 0 < n < 6 {
      var k := n - Min(3, n);
      assert r[k] == Bottom(r)[0];
      assert r[k] == Top(r)[k];
      assert r[k] in Top(r) && r[k] in Bottom(r);
    }
  }

  /** The top three and the bottom three of the ranking name no common label
      exactly when the ranking is empty or has six or more labels. */
  lemma TopBottomDisjointIffSixOrNone(ratings: map<Label, seq<int>>)
    ensures (forall x :: x in Top(Rank(ratings)) ==> x !in Bottom(Rank(ratings)))
            <==> (|Rank(ratings)| == 0 || |Rank(ratings)| >= 6)
  {
    var r := Rank(ratings);
    RankingEntries(ratings);
    forall a, b | 0 <= a < b < |r|
      ensures r[a] != r[b]
    {
      assert r[a].question != r[b].question;
    }
    TopBottomShareIffShort(r);
  }

  /** The ranking is the only list that is sorted in descending tuple order
      and holds the label tuples. */
  lemma RankUnique(ratings: map<Label, seq<int>>, r: seq<RankedStat>)
    requires SortedBy(r, RankGe) && multiset(r) == multiset(LabelStats(ratings, 0))
    ensures r == Rank(ratings)
  {
    RankGeOrders();
    SortedPermutationUnique(r, Rank(ratings), RankGe);
  }
}
