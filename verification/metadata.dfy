/** Course metadata from an evaluation file's name: the search for
    `(Spring|Fall|Summer)\s+(\d{4}).*?(CMSI\s+\d+)\s+(\d+)` and the
    `("Unknown", "Unknown", "00")` fallback when it does not occur.

    The pattern is described relationally by `Fits` (a candidate match with
    its group boundaries) and `Leftmost` (the one a backtracking search
    reports: smallest start, then the shortest lazy gap). `ParseCourseInfo`
    scans for it directly: every greedy run in the pattern is followed by a
    character the run cannot contain, so only the longest run can succeed and
    the scan never needs to backtrack. */
module Metadata {
  import opened Text
  import opened Wrappers

  datatype CourseInfo = CourseInfo(term: string, course: string, section: string)

  /** The result for a name in which the pattern does not occur. */
  const Unknown: CourseInfo := CourseInfo("Unknown", "Unknown", "00")

  const SemesterNames: seq<string> := ["Spring", "Fall", "Summer"]

  const CoursePrefix: string := "CMSI"

  /** `s[i..j]` is a non-empty run of whitespace. */
  predicate SpaceRun(s: string, i: int, j: int) {
    0 <= i < j <= |s| && forall t :: i <= t < j ==> IsSpace(s[t])
  }

  /** `s[i..j]` is a non-empty run of digits. */
  predicate DigitRun(s: string, i: int, j: int) {
    0 <= i < j <= |s| && forall t :: i <= t < j ==> IsDigit(s[t])
  }

  /** `s[i..j]` can be crossed by `.*?`, which does not match a newline. */
  predicate Gap(s: string, i: int, j: int) {
    0 <= i <= j <= |s| && forall t :: i <= t < j ==> s[t] != '\n'
  }

  /** `(Spring|Fall|Summer)\s+(\d{4})` at `p`: semester `w`, year at `y`. */
  predicate HeadAt(s: string, p: int, w: string, y: int) {
    && 0 <= p
    && w in SemesterNames
    && OccursAt(s, w, p)
    && SpaceRun(s, p + |w|, y)
    && DigitRun(s, y, y + 4)
  }

  /** `(CMSI\s+\d+)\s+(\d+)` at `k`: course number `s[a..c]`, section `s[d..e]`,
      the last `\d+` taking every digit it can. */
  predicate TailAt(s: string, k: int, a: int, c: int, d: int, e: int) {
    && 0 <= k
    && OccursAt(s, CoursePrefix, k)
    && SpaceRun(s, k + |CoursePrefix|, a)
    && DigitRun(s, a, c)
    && SpaceRun(s, c, d)
    && DigitRun(s, d, e)
    && (e == |s| || !IsDigit(s[e]))
  }

  /** A candidate match: where it starts, its semester word, where the year
      begins, where the lazy gap ends (the course code begins) and the group
      boundaries of the course number and the section. */
  datatype Match = Match(start: nat, word: string, year: nat, tail: nat,
                         numberStart: nat, numberEnd: nat, sectionStart: nat, sectionEnd: nat)

  predicate Fits(s: string, m: Match) {
    && HeadAt(s, m.start, m.word, m.year)
    && Gap(s, m.year + 4, m.tail)
    && TailAt(s, m.tail, m.numberStart, m.numberEnd, m.sectionStart, m.sectionEnd)
  }

  /** The match `re.search` reports: no candidate starts earlier, and none with
      the same start has a shorter gap. */
  ghost predicate Leftmost(s: string, m: Match) {
    && Fits(s, m)
    && forall m' :: Fits(s, m') ==> m.start < m'.start || (m.start == m'.start && m.tail <= m'.tail)
  }

  /** The reported triple: `"<semester> <year>"`, the course code group
      unchanged, and the section digits. */
  function Groups(s: string, m: Match): CourseInfo
    requires Fits(s, m)
  {
    CourseInfo(m.word + " " + s[m.year..m.year + 4], s[m.tail..m.numberEnd], s[m.sectionStart..m.sectionEnd])
  }

  predicate AllDigits(x: string) {
    forall t :: 0 <= t < |x| ==> IsDigit(x[t])
  }

  /** The shape of a successfully parsed triple. */
  predicate WellShaped(r: CourseInfo) {
    && (exists w :: w in SemesterNames && |r.term| == |w| + 5 && r.term[..|w| + 1] == w + " "
                     && AllDigits(r.term[|w| + 1..]))
    && |r.course| > |CoursePrefix| && r.course[..|CoursePrefix|] == CoursePrefix
    && (exists i :: |CoursePrefix| < i < |r.course| && SpaceRun(r.course, |CoursePrefix|, i)
                    && DigitRun(r.course, i, |r.course|))
    && |r.section| > 0 && AllDigits(r.section)
  }

  /** The semester name occurring at `p`, if any. */
  function SemesterAt(s: string, p: nat): (r: Option<string>)
    ensures r.Some? ==> r.value in SemesterNames && OccursAt(s, r.value, p)
    ensures r.None? ==> forall w :: w in SemesterNames ==> !OccursAt(s, w, p)
  {
    if OccursAt(s, "Spring", p) then Some("Spring")
    else if OccursAt(s, "Fall", p) then Some("Fall")
    else if OccursAt(s, "Summer", p) then Some("Summer")
    else None
  }

  /** At most one semester name occurs at a position. */
  lemma SemesterUnique(s: string, p: nat, w1: string, w2: string)
    requires w1 in SemesterNames && w2 in SemesterNames
    requires OccursAt(s, w1, p) && OccursAt(s, w2, p)
    ensures w1 == w2
  {
    assert w1[0] == s[p] == w2[0];
    assert w1[1] == s[p + 1] == w2[1];
  }

  /** A head match at `p` is determined by `p`. */
  lemma HeadUnique(s: string, p: int, w1: string, y1: int, w2: string, y2: int)
    requires HeadAt(s, p, w1, y1) && HeadAt(s, p, w2, y2)
    ensures w1 == w2 && y1 == y2
  {
    SemesterUnique(s, p, w1, w2);
    SpanStopsAt(s, p + |w1|, y1, IsSpace);
    SpanStopsAt(s, p + |w1|, y2, IsSpace);
  }

  /** A tail match at `k` has the group boundaries that maximal runs from
      `k` give. */
  lemma TailSpans(s: string, k: int, a: int, c: int, d: int, e: int)
    requires TailAt(s, k, a, c, d, e)
    ensures k + 4 <= |s|
    ensures a == Span(s, k + 4, IsSpace) && c == Span(s, a, IsDigit)
    ensures d == Span(s, c, IsSpace) && e == Span(s, d, IsDigit)
  {
    SpanStopsAt(s, k + 4, a, IsSpace);
    SpanStopsAt(s, a, c, IsDigit);
    SpanStopsAt(s, c, d, IsSpace);
    SpanStopsAt(s, d, e, IsDigit);
  }

  /** A tail match at `k` is determined by `k`. */
  lemma TailUnique(s: string, k: int, a1: int, c1: int, d1: int, e1: int, a2: int, c2: int, d2: int, e2: int)
    requires TailAt(s, k, a1, c1, d1, e1) && TailAt(s, k, a2, c2, d2, e2)
    ensures a1 == a2 && c1 == c2 && d1 == d2 && e1 == e2
  {
    TailSpans(s, k, a1, c1, d1, e1);
    TailSpans(s, k, a2, c2, d2, e2);
  }

  /** Matches `(Spring|Fall|Summer)\s+(\d{4})` at `p`, giving the semester and
      the position of the year. */
  function ScanHead(s: string, p: nat): (r: Option<(string, nat)>)
    ensures r.Some? ==> HeadAt(s, p, r.value.0, r.value.1)
    ensures r.None? ==> forall w, y :: !HeadAt(s, p, w, y)
  {
    match SemesterAt(s, p)
    case None => None
    case Some(w) =>
      var q := p + |w|;
      var y := Span(s, q, IsSpace);
      if y > q && y + 4 <= |s| && Span(s, y, IsDigit) >= y + 4 then Some((w, y))
      else
        assert forall w', y' :: HeadAt(s, p, w', y') ==> w' == w && y' == y by {
          forall w', y' | HeadAt(s, p, w', y') ensures w' == w && y' == y {
            SemesterUnique(s, p, w, w');
            SpanStopsAt(s, q, y', IsSpace);
          }
        }
        None
  }

  /** Course-number and section boundaries of a tail match. */
  datatype TailSpan = TailSpan(numberStart: nat, numberEnd: nat, sectionStart: nat, sectionEnd: nat)

  /** Matches `(CMSI\s+\d+)\s+(\d+)` at `k`. */
  function ScanTail(s: string, k: nat): (r: Option<TailSpan>)
    ensures r.Some? ==> TailAt(s, k, r.value.numberStart, r.value.numberEnd, r.value.sectionStart, r.value.sectionEnd)
    ensures r.None? ==> forall a, c, d, e :: !TailAt(s, k, a, c, d, e)
  {
    if !OccursAt(s, CoursePrefix, k) then None
    else
      var a := Span(s, k + 4, IsSpace);
      var c := Span(s, a, IsDigit);
      var d := Span(s, c, IsSpace);
      var e := Span(s, d, IsDigit);
      if k + 4 < a && a < c && c < d && d < e then Some(TailSpan(a, c, d, e))
      else
        assert forall a', c', d', e' :: !TailAt(s, k, a', c', d', e') by {
          forall a', c', d', e' | TailAt(s, k, a', c', d', e') ensures false {
            TailSpans(s, k, a', c', d', e');
          }
        }
        None
  }

  /** `.*?` followed by the tail: the first position `k' >= k`, reachable
      without crossing a newline, at which the tail matches. */
  function ScanGap(s: string, k: nat): (r: Option<(nat, TailSpan)>)
    requires k <= |s|
    ensures r.Some? ==> var (k', t) := r.value;
      && Gap(s, k, k')
      && TailAt(s, k', t.numberStart, t.numberEnd, t.sectionStart, t.sectionEnd)
      && forall j, a, c, d, e :: k <= j < k' ==> !TailAt(s, j, a, c, d, e)
    ensures r.None? ==> forall j, a, c, d, e :: Gap(s, k, j) ==> !TailAt(s, j, a, c, d, e)
    decreases |s| - k
  {
    match ScanTail(s, k)
    case Some(t) => Some((k, t))
    case None =>
      if k == |s| || s[k] == '\n' then
        assert forall j :: Gap(s, k, j) ==> j == k;
        None
      else
        var r := ScanGap(s, k + 1);
        assert forall j :: Gap(s, k, j) && j != k ==> Gap(s, k + 1, j);
        r
  }

  /** No candidate starts at `p` when the head fails there, or when it
      matches but no tail follows it across a newline-free gap. */
  lemma NoneStartsAt(s: string, p: nat)
    requires ScanHead(s, p).Some? ==> ScanGap(s, ScanHead(s, p).value.1 + 4).None?
    requires ScanHead(s, p).Some? ==> ScanHead(s, p).value.1 + 4 <= |s|
    ensures forall m' :: Fits(s, m') ==> m'.start != p
  {
    forall m' | Fits(s, m') && m'.start == p ensures false {
      var (w, y) := ScanHead(s, p).value;
      HeadUnique(s, p, w, y, m'.word, m'.year);
    }
  }

  /** A head at `p` followed by the first reachable tail is the earliest-gap
      candidate starting at `p`. */
  lemma ShortestGapAt(s: string, m: Match)
    requires Fits(s, m)
    requires forall j, a, c, d, e :: m.year + 4 <= j < m.tail ==> !TailAt(s, j, a, c, d, e)
    ensures forall m' :: Fits(s, m') && m'.start == m.start ==> m.tail <= m'.tail
  {
    forall m' | Fits(s, m') && m'.start == m.start ensures m.tail <= m'.tail {
      HeadUnique(s, m.start, m.word, m.year, m'.word, m'.year);
    }
  }

  /** The search proper: the leftmost match starting at or after `p`. */
  function Search(s: string, p: nat): (r: Option<Match>)
    requires p <= |s|
    ensures r.Some? ==> Fits(s, r.value) && p <= r.value.start
    ensures r.Some? ==> forall m' :: Fits(s, m') && p <= m'.start ==>
                          r.value.start < m'.start || (r.value.start == m'.start && r.value.tail <= m'.tail)
    ensures r.None? ==> forall m' :: Fits(s, m') ==> m'.start < p
    decreases |s| - p
  {
    if p == |s| then None
    else
      var head := ScanHead(s, p);
      if head.None? || ScanGap(s, head.value.1 + 4).None? then
        NoneStartsAt(s, p);
        Search(s, p + 1)
      else
        var (w, y) := head.value;
        var (k, t) := ScanGap(s, y + 4).value;
        var m := Match(p, w, y, k, t.numberStart, t.numberEnd, t.sectionStart, t.sectionEnd);
        ShortestGapAt(s, m);
        Some(m)
  }

  /** `parse_course_info`: the groups of the leftmost match, or `Unknown`
      exactly when the pattern occurs nowhere in the name. */
  function ParseCourseInfo(filename: string): (r: CourseInfo)
    ensures r == Unknown <==> forall m :: !Fits(filename, m)
    ensures r != Unknown ==> exists m :: Leftmost(filename, m) && r == Groups(filename, m)
    ensures r == Unknown || WellShaped(r)
  {
    match Search(filename, 0)
    case None => Unknown
    case Some(m) =>
      var r := Groups(filename, m);
      GroupsWellShaped(filename, m);
      r
  }

  /** The groups of any candidate match have the documented shape, which
      `Unknown` does not have. */
  lemma GroupsWellShaped(s: string, m: Match)
    requires Fits(s, m)
    ensures WellShaped(Groups(s, m))
    ensures Groups(s, m) != Unknown
  {
    var r := Groups(s, m);
    var w := m.word;
    assert r.term[..|w| + 1] == w + " ";
    assert r.term[|w| + 1..] == s[m.year..m.year + 4];
    var i := m.numberStart - m.tail;
    assert SpaceRun(r.course, |CoursePrefix|, i);
    assert DigitRun(r.course, i, |r.course|);
    assert r.course[..|CoursePrefix|] == s[m.tail..m.tail + 4];
    assert r.term != "Unknown" by {
      assert |r.term| != 7;
    }
  }

  /** At most one match is the one reported, so the triple is well defined. */
  lemma LeftmostUnique(s: string, m1: Match, m2: Match)
    requires Leftmost(s, m1) && Leftmost(s, m2)
    ensures m1 == m2
  {
    HeadUnique(s, m1.start, m1.word, m1.year, m2.word, m2.year);
    TailUnique(s, m1.tail, m1.numberStart, m1.numberEnd, m1.sectionStart, m1.sectionEnd,
               m2.numberStart, m2.numberEnd, m2.sectionStart, m2.sectionEnd);
  }

  /** A typical evaluation file name. */
  lemma ParseTypicalName()
    ensures ParseCourseInfo("Fall 2025 CMSI 186 02.csv") == CourseInfo("Fall 2025", "CMSI 186", "02")
  {
    var s := "Fall 2025 CMSI 186 02.csv";
    var m := Match(0, "Fall", 5, 10, 15, 18, 19, 21);
    TypicalNameLeftmost(s, m);
    var r := ParseCourseInfo(s);
    var m0 :| Leftmost(s, m0) && r == Groups(s, m0);
    LeftmostUnique(s, m, m0);
  }

  lemma TypicalNameLeftmost(s: string, m: Match)
    requires s == "Fall 2025 CMSI 186 02.csv"
    requires m == Match(0, "Fall", 5, 10, 15, 18, 19, 21)
    ensures Leftmost(s, m)
    ensures Groups(s, m) == CourseInfo("Fall 2025", "CMSI 186", "02")
  {
    TypicalNameFits(s, m);
    forall m' | Fits(s, m') && m'.start == 0 ensures m.tail <= m'.tail {
      HeadUnique(s, 0, "Fall", 5, m'.word, m'.year);
      assert s[m'.tail..m'.tail + 4][0] == 'C';
    }
  }

  lemma TypicalNameFits(s: string, m: Match)
    requires s == "Fall 2025 CMSI 186 02.csv"
    requires m == Match(0, "Fall", 5, 10, 15, 18, 19, 21)
    ensures Fits(s, m)
    ensures Groups(s, m) == CourseInfo("Fall 2025", "CMSI 186", "02")
  {
    assert s[..4] == "Fall";
    assert s[10..14] == CoursePrefix;
    assert s[5..9] == "2025" && s[10..18] == "CMSI 186" && s[19..21] == "02";
  }

  /** A name in which no semester name can begin gets the fallback triple. */
  lemma NoSemesterInitial(s: string)
    requires forall t :: 0 <= t < |s| ==> s[t] != 'S' && s[t] != 'F'
    ensures ParseCourseInfo(s) == Unknown
  {
    NoCandidateWithoutSemesterInitial(s);
  }

  lemma NoCandidateWithoutSemesterInitial(s: string)
    requires forall t :: 0 <= t < |s| ==> s[t] != 'S' && s[t] != 'F'
    ensures forall m :: !Fits(s, m)
  {
    forall m | Fits(s, m) ensures m.start < |s| && (s[m.start] == 'S' || s[m.start] == 'F') {
      var w := m.word;
      assert s[m.start..m.start + |w|][0] == w[0];
    }
  }

  /** A name without the pattern gets the fallback triple. */
  lemma ParseNameWithoutPattern()
    ensures ParseCourseInfo("notes 2025.csv") == Unknown
  {
    NoSemesterInitial("notes 2025.csv");
  }
}
