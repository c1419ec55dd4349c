/** `filter_good_feedback`: the beneficial comments long enough and with at
    least two distinct positive keywords. */
module Feedback {
  import opened Text

  /** The threshold used for the report. */
  const DefaultMinLength: int := 50

  /** Keywords are searched for, as substrings, in the lower-cased comment. */
  const Keywords: seq<string> := [
    "great", "excellent", "helpful", "enjoyed", "liked", "appreciated",
    "well", "organized", "clear", "kind", "willing", "best", "really",
    "engaging", "informative", "thorough", "fair", "supportive"
  ]

  /** How many of `keywords` occur in `text`, each counted at most once. */
  function CountHits(text: string, keywords: seq<string>): (r: nat)
    ensures r <= |keywords|
  {
    if |keywords| == 0 then 0
    else (if Contains(text, keywords[0]) then 1 else 0) + CountHits(text, keywords[1..])
  }

  /** `positive_count` for a comment. */
  function PositiveCount(comment: string): nat {
    CountHits(Lower(comment), Keywords)
  }

  predicate IsGoodFeedback(comment: string, minLength: int) {
    |comment| >= minLength && PositiveCount(comment) >= 2
  }

  /** `a` is `b` with some elements deleted, the rest kept in order. */
  predicate IsSubsequence<T(==)>(a: seq<T>, b: seq<T>)
    decreases |b|
  {
    if |b| == 0 then |a| == 0
    else (|a| > 0 && a[0] == b[0] && IsSubsequence(a[1..], b[1..])) || IsSubsequence(a, b[1..])
  }

  /** `filter_good_feedback(comments, min_length)`: the comments that are good
      feedback, in their original order, each as often as it occurs. */
  function FilterGoodFeedback(comments: seq<string>, minLength: int): (r: seq<string>)
    ensures IsSubsequence(r, comments)
    ensures forall i :: 0 <= i < |r| ==> IsGoodFeedback(r[i], minLength)
    ensures forall c :: multiset(r)[c] == if IsGoodFeedback(c, minLength) then multiset(comments)[c] else 0
  {
    if |comments| == 0 then []
    else
      var rest := FilterGoodFeedback(comments[1..], minLength);
      assert comments == [comments[0]] + comments[1..];
      if IsGoodFeedback(comments[0], minLength) then
        var r := [comments[0]] + rest;
        assert r[1..] == rest;
        r
      else rest
  }

  /** Raising the threshold can only remove comments from the selection. */
  lemma {:induction false} ThresholdMonotone(comments: seq<string>, low: int, high: int)
    requires low <= high
    ensures IsSubsequence(FilterGoodFeedback(comments, high), FilterGoodFeedback(comments, low))
    decreases |comments|
  {
    if |comments| > 0 {
      ThresholdMonotone(comments[1..], low, high);
      var h := FilterGoodFeedback(comments, high);
      var l := FilterGoodFeedback(comments, low);
      var h' := FilterGoodFeedback(comments[1..], high);
      var l' := FilterGoodFeedback(comments[1..], low);
      if IsGoodFeedback(comments[0], high) {
        assert h == [comments[0]] + h' && l == [comments[0]] + l';
        assert h[1..] == h' && l[1..] == l';
      } else if IsGoodFeedback(comments[0], low) {
        assert l == [comments[0]] + l';
        assert l[1..] == l';
      }
    }
  }

  /** The keywords are pairwise distinct. */
  lemma KeywordsDistinct()
    ensures forall i, j :: 0 <= i < j < |Keywords| ==> Keywords[i] != Keywords[j]
  {
  }

  /** The keywords of `keywords` that occur in `text`. */
  function HitSet(text: string, keywords: seq<string>): set<string> {
    set k | k in keywords && Contains(text, k)
  }

  /** For distinct keywords the count is the number of distinct keywords that
      occur: repeated occurrences of one keyword add nothing. */
  lemma {:induction false} CountHitsIsDistinctHits(text: string, keywords: seq<string>)
    requires forall i, j :: 0 <= i < j < |keywords| ==> keywords[i] != keywords[j]
    ensures CountHits(text, keywords) == |HitSet(text, keywords)|
    decreases |keywords|
  {
    if |keywords| > 0 {
      var rest := keywords[1..];
      CountHitsIsDistinctHits(text, rest);
      var all := HitSet(text, keywords);
      var tail := HitSet(text, rest);
      assert keywords[0] !in tail;
      assert forall k :: k in keywords <==> k == keywords[0] || k in rest;
      if Contains(text, keywords[0]) {
        assert all == tail + {keywords[0]};
      } else {
        assert all == tail;
      }
    } else {
      assert HitSet(text, keywords) == {};
    }
  }

  /** `positive_count` is the number of distinct keywords in the lower-cased
      comment. */
  lemma PositiveCountIsDistinctKeywords(comment: string)
    ensures PositiveCount(comment) == |HitSet(Lower(comment), Keywords)|
  {
    KeywordsDistinct();
    CountHitsIsDistinctHits(Lower(comment), Keywords);
  }

  /** A comment shorter than the default threshold, such as one of 49
      characters, is never selected, whatever keywords it holds. */
  lemma ShortCommentNeverKept(comment: string)
    requires |comment| < DefaultMinLength
    ensures FilterGoodFeedback([comment], DefaultMinLength) == []
  {
  }

  /** Two keywords that occur count at least two. */
  lemma {:induction false} CountHitsAtLeastTwo(text: string, keywords: seq<string>, i: nat, j: nat)
    requires i < j < |keywords|
    requires Contains(text, keywords[i]) && Contains(text, keywords[j])
    ensures CountHits(text, keywords) >= 2
    decreases |keywords|
  {
    if i > 0 {
      CountHitsAtLeastTwo(text, keywords[1..], i - 1, j - 1);
    } else {
      CountHitsAtLeastOne(text, keywords[1..], j - 1);
    }
  }

  lemma {:induction false} CountHitsAtLeastOne(text: string, keywords: seq<string>, j: nat)
    requires j < |keywords| && Contains(text, keywords[j])
    ensures CountHits(text, keywords) >= 1
    decreases |keywords|
  {
    if j > 0 {
      CountHitsAtLeastOne(text, keywords[1..], j - 1);
    }
  }

  lemma {:induction false} CountHitsNone(text: string, keywords: seq<string>)
    requires forall i :: 0 <= i < |keywords| ==> !Contains(text, keywords[i])
    ensures CountHits(text, keywords) == 0
    decreases |keywords|
  {
    if |keywords| > 0 {
      CountHitsNone(text, keywords[1..]);
    }
  }

  /** A long enough comment containing "great" and "helpful" is selected. */
  lemma GreatAndHelpfulKept(comment: string)
    requires |comment| >= DefaultMinLength
    requires Contains(Lower(comment), "great") && Contains(Lower(comment), "helpful")
    ensures FilterGoodFeedback([comment], DefaultMinLength) == [comment]
  {
    assert Keywords[0] == "great" && Keywords[2] == "helpful";
    CountHitsAtLeastTwo(Lower(comment), Keywords, 0, 2);
  }

  /** A comment in which "great", the first keyword, is the only keyword that
      may occur is not selected, however long. */
  lemma OnlyGreatDropped(comment: string)
    requires forall i :: 0 < i < |Keywords| ==> !Contains(Lower(comment), Keywords[i])
    ensures FilterGoodFeedback([comment], DefaultMinLength) == []
  {
    var text, rest := Lower(comment), Keywords[1..];
    forall i | 0 <= i < |rest|
      ensures !Contains(text, rest[i])
    {
      assert rest[i] == Keywords[i + 1];
    }
    CountHitsNone(text, rest);
    assert CountHits(text, Keywords) <= 1;
    assert !IsGoodFeedback(comment, DefaultMinLength);
  }
}
