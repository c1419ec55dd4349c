/** Character classes and the handful of string operations the analysis uses:
    substring search (Python's `in`), lower-casing and `strip()`. */
module Text {

  /** Python's `str.isspace()`: the characters both `\s` in a `str` regex and
      `str.strip()` treat as whitespace. */
  predicate IsSpace(c: char) {
    var n := c as int;
    (9 <= n <= 13) || (28 <= n <= 32) || n == 0x85 || n == 0xA0 || n == 0x1680
    || (0x2000 <= n <= 0x200A) || n == 0x2028 || n == 0x2029 || n == 0x202F
    || n == 0x205F || n == 0x3000
  }

  /** An ASCII decimal digit. */
  predicate IsDigit(c: char) {
    '0' <= c <= '9'
  }

  /** ASCII lower-casing of one character. */
  function LowerChar(c: char): (r: char)
    ensures 'A' <= c <= 'Z' ==> 'a' <= r <= 'z'
    ensures !('A' <= c <= 'Z') ==> r == c
  {
    if 'A' <= c <= 'Z' then (c as int + 32) as char else c
  }

  /** `s.lower()`, on the ASCII letters. */
  function Lower(s: string): (r: string)
    ensures |r| == |s|
    ensures forall i :: 0 <= i < |s| ==> r[i] == LowerChar(s[i])
  {
    seq(|s|, i requires 0 <= i < |s| => LowerChar(s[i]))
  }

  /** `pat` occurs in `s` starting at position `i`. */
  predicate OccursAt(s: string, pat: string, i: nat) {
    i + |pat| <= |s| && s[i..i + |pat|] == pat
  }

  /** Python's `pat in s`: a left-to-right scan for an occurrence. */
  predicate Contains(s: string, pat: string)
    decreases |s|
  {
    OccursAt(s, pat, 0) || (|s| > 0 && Contains(s[1..], pat))
  }

  /** The scan finds an occurrence exactly when one exists somewhere. */
  lemma {:induction false} ContainsIff(s: string, pat: string)
    ensures Contains(s, pat) <==> exists i :: 0 <= i && OccursAt(s, pat, i)
    decreases |s|
  {
    if Contains(s, pat) {
      if !OccursAt(s, pat, 0) {
        ContainsIff(s[1..], pat);
        var i :| 0 <= i && OccursAt(s[1..], pat, i);
        assert s[1..][i..i + |pat|] == s[i + 1..i + 1 + |pat|];
        assert OccursAt(s, pat, i + 1);
      }
    } else if i :| 0 <= i && OccursAt(s, pat, i) {
      assert i != 0;
      assert |s| > 0;
      assert s[1..][i - 1..i - 1 + |pat|] == s[i..i + |pat|];
      assert OccursAt(s[1..], pat, i - 1);
      ContainsIff(s[1..], pat);
      assert false;
    }
  }

  /** An occurrence at a known position is found by the scan. */
  lemma ContainsAt(s: string, pat: string, i: nat)
    requires OccursAt(s, pat, i)
    ensures Contains(s, pat)
  {
    ContainsIff(s, pat);
  }

  /** End of the longest run of characters satisfying `f` that starts at `i`:
      how far a greedy `f+`/`f*` reaches. */
  function Span(s: string, i: nat, f: char -> bool): (j: nat)
    requires i <= |s|
    ensures i <= j <= |s|
    ensures forall t :: i <= t < j ==> f(s[t])
    ensures j == |s| || !f(s[j])
    decreases |s| - i
  {
    if i == |s| || !f(s[i]) then i else Span(s, i + 1, f)
  }

  /** A run that is known to stop where `f` fails is the one `Span` finds. */
  lemma SpanStopsAt(s: string, i: nat, j: nat, f: char -> bool)
    requires i <= j <= |s|
    requires forall t :: i <= t < j ==> f(s[t])
    requires j == |s| || !f(s[j])
    ensures Span(s, i, f) == j
  {
  }

  /** One past the last non-whitespace character of `s[..j]` (or 0). */
  function TrailingStart(s: string, j: nat): (k: nat)
    requires j <= |s|
    ensures k <= j
    ensures forall t :: k <= t < j ==> IsSpace(s[t])
    ensures k == 0 || !IsSpace(s[k - 1])
  {
    if j == 0 || !IsSpace(s[j - 1]) then j else TrailingStart(s, j - 1)
  }

  /** Python's `s.strip()`: drops the whitespace at both ends. */
  function Strip(s: string): (r: string)
    ensures |r| <= |s|
  {
    var j := TrailingStart(s, |s|);
    s[Span(s[..j], 0, IsSpace)..j]
  }

  /** `Strip` returns the longest slice with no whitespace at either end,
      everything cut away on both sides being whitespace. */
  lemma StripSpec(s: string)
    ensures exists i, j ::
              && 0 <= i <= j <= |s| && Strip(s) == s[i..j]
              && (forall t :: 0 <= t < i ==> IsSpace(s[t]))
              && (forall t :: j <= t < |s| ==> IsSpace(s[t]))
    ensures Strip(s) == [] || (!IsSpace(Strip(s)[0]) && !IsSpace(Strip(s)[|Strip(s)| - 1]))
  {
    var j := TrailingStart(s, |s|);
    var i := Span(s[..j], 0, IsSpace);
    assert s[..j][i..j] == s[i..j];
  }

  /** A string made only of whitespace strips to the empty string. */
  lemma StripAllSpace(s: string)
    requires forall t :: 0 <= t < |s| ==> IsSpace(s[t])
    ensures Strip(s) == ""
  {
  }

  /** Python's `a < b` on strings: code-point lexicographic order, a proper
      prefix coming first. `LexLe` is its reflexive closure. */
  predicate LexLe(a: string, b: string)
    decreases |a|
  {
    if |a| == 0 then true
    else if |b| == 0 then false
    else if a[0] != b[0] then a[0] < b[0]
    else LexLe(a[1..], b[1..])
  }

  lemma {:induction false} LexLeReflexive(a: string)
    ensures LexLe(a, a)
    decreases |a|
  {
    if |a| > 0 {
      LexLeReflexive(a[1..]);
    }
  }

  lemma {:induction false} LexLeTotal(a: string, b: string)
    ensures LexLe(a, b) || LexLe(b, a)
    decreases |a|
  {
    if |a| > 0 && |b| > 0 && a[0] == b[0] {
      LexLeTotal(a[1..], b[1..]);
    }
  }

  lemma {:induction false} LexLeAntisymmetric(a: string, b: string)
    requires LexLe(a, b) && LexLe(b, a)
    ensures a == b
    decreases |a|
  {
    if |a| > 0 {
      LexLeAntisymmetric(a[1..], b[1..]);
      assert a == [a[0]] + a[1..];
      assert b == [b[0]] + b[1..];
    }
  }

  lemma {:induction false} LexLeTransitive(a: string, b: string, c: string)
    requires LexLe(a, b) && LexLe(b, c)
    ensures LexLe(a, c)
    decreases |a|
  {
    if |a| > 0 && a[0] == b[0] && b[0] == c[0] {
      LexLeTransitive(a[1..], b[1..], c[1..]);
    }
  }
}
