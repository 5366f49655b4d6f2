/** The string operations the pipeline applies to table cells: Python's
    `str.strip()`, `str.replace` of one character, and the case-insensitive
    regular-expression search used by `str.contains(..., case=False)`. */
module Text {

  /** Python's `str.isspace()`: the characters `str.strip()` removes. */
  predicate IsSpace(c: char) {
    || ('\t' <= c <= '\r')
    || ('\U{1C}' <= c <= ' ')
    || c == '\U{85}' || c == '\U{A0}' || c == '\U{1680}'
    || ('\U{2000}' <= c <= '\U{200A}')
    || c == '\U{2028}' || c == '\U{2029}' || c == '\U{202F}'
    || c == '\U{205F}' || c == '\U{3000}'
  }

  predicate AllSpace(t: string) {
    forall k | 0 <= k < |t| :: IsSpace(t[k])
  }

  /** The index of the first character at or after `i` that is not
      whitespace, `|s|` when there is none. */
  function SkipSpaces(s: string, i: nat): (n: nat)
    requires i <= |s|
    ensures i <= n <= |s|
    ensures forall k | i <= k < n :: IsSpace(s[k])
    ensures n < |s| ==> !IsSpace(s[n])
    decreases |s| - i
  {
    if i < |s| && IsSpace(s[i]) then SkipSpaces(s, i + 1) else i
  }

  /** The index just past the last character before `j` that is not
      whitespace, going no lower than `lo`. */
  function SkipSpacesBack(s: string, lo: nat, j: nat): (n: nat)
    requires lo <= j <= |s|
    ensures lo <= n <= j
    ensures forall k | n <= k < j :: IsSpace(s[k])
    ensures n > lo ==> !IsSpace(s[n - 1])
  {
    if j > lo && IsSpace(s[j - 1]) then SkipSpacesBack(s, lo, j - 1) else j
  }

  /** `str.strip()`: the label with leading and trailing whitespace removed.
      The result is the slice of `s` between two all-whitespace margins and
      neither starts nor ends with whitespace. */
  function Strip(s: string): (r: string)
    ensures exists i :: Margins(s, i, r)
    ensures |r| > 0 ==> !IsSpace(r[0]) && !IsSpace(r[|r| - 1])
  {
    var i := SkipSpaces(s, 0);
    var j := SkipSpacesBack(s, i, |s|);
    SliceBetweenMargins(s, i, j);
    s[i..j]
  }

  /** A slice whose margins are whitespace and whose ends are not. */
  lemma SliceBetweenMargins(s: string, i: nat, j: nat)
    requires i <= j <= |s|
    requires forall k | 0 <= k < i :: IsSpace(s[k])
    requires forall k | j <= k < |s| :: IsSpace(s[k])
    requires i < j ==> !IsSpace(s[i]) && !IsSpace(s[j - 1])
    ensures Margins(s, i, s[i..j])
    ensures |s[i..j]| > 0 ==> !IsSpace(s[i..j][0]) && !IsSpace(s[i..j][j - i - 1])
  {
    assert forall k | 0 <= k < i :: s[..i][k] == s[k];
    assert forall k | 0 <= k < |s| - j :: s[j..][k] == s[j + k];
  }

  /** `r` is the slice of `s` starting at `i`, with nothing but whitespace
      before and after it. */
  predicate Margins(s: string, i: int, r: string) {
    0 <= i <= |s| - |r| && r == s[i..i + |r|] && AllSpace(s[..i]) && AllSpace(s[i + |r|..])
  }

  /** The index `SkipSpaces` finds is the only one with its two properties. */
  lemma {:induction false} SkipSpacesAt(s: string, i: nat, n: nat)
    requires i <= n <= |s|
    requires forall k | i <= k < n :: IsSpace(s[k])
    requires n < |s| ==> !IsSpace(s[n])
    ensures SkipSpaces(s, i) == n
    decreases n - i
  {
    if i < n {
      SkipSpacesAt(s, i + 1, n);
    }
  }

  /** The index `SkipSpacesBack` finds is the only one with its two
      properties. */
  lemma {:induction false} SkipSpacesBackAt(s: string, lo: nat, j: nat, n: nat)
    requires lo <= n <= j <= |s|
    requires forall k | n <= k < j :: IsSpace(s[k])
    requires n > lo ==> !IsSpace(s[n - 1])
    ensures SkipSpacesBack(s, lo, j) == n
    decreases j - n
  {
    if n < j {
      SkipSpacesBackAt(s, lo, j - 1, n);
    }
  }

  /** A label padded by whitespace on either side strips back to itself, and
      so stripping is idempotent: `Strip(Strip(s)) == Strip(s)`. */
  lemma StripPadded(left: string, t: string, right: string)
    requires AllSpace(left) && AllSpace(right)
    requires |t| > 0 ==> !IsSpace(t[0]) && !IsSpace(t[|t| - 1])
    ensures Strip(left + t + right) == t
  {
    var s := left + t + right;
    var a, b := |left|, |left| + |t|;
    assert forall k | 0 <= k < a :: s[k] == left[k];
    assert forall k | a <= k < b :: s[k] == t[k - a];
    assert forall k | b <= k < |s| :: s[k] == right[k - b];
    if |t| > 0 {
      SkipSpacesAt(s, 0, a);
      SkipSpacesBackAt(s, a, |s|, b);
      assert s[a..b] == t;
    } else {
      SkipSpacesAt(s, 0, |s|);
      SkipSpacesBackAt(s, |s|, |s|, |s|);
    }
  }

  lemma StripIdempotent(s: string)
    ensures Strip(Strip(s)) == Strip(s)
  {
    var t := Strip(s);
    assert t == [] + t + [];
    StripPadded([], t, []);
  }

  /** `s.replace(from, to)` for single characters. */
  function ReplaceChar(s: string, from: char, to: char): (r: string)
    ensures |r| == |s|
    ensures forall k | 0 <= k < |s| :: r[k] == if s[k] == from then to else s[k]
  {
    if |s| == 0 then []
    else [if s[0] == from then to else s[0]] + ReplaceChar(s[1..], from, to)
  }

  /** `s.replace(c, '')`: every occurrence of `c` dropped, nothing else touched. */
  function RemoveChar(s: string, c: char): (r: string)
    ensures c !in r
    ensures multiset(r) == multiset(s)[c := 0]
  {
    if |s| == 0 then []
    else
      assert s == [s[0]] + s[1..];
      (if s[0] == c then [] else [s[0]]) + RemoveChar(s[1..], c)
  }

  lemma {:induction false} RemoveCharAppend(a: string, b: string, c: char)
    ensures RemoveChar(a + b, c) == RemoveChar(a, c) + RemoveChar(b, c)
    decreases |a|
  {
    if |a| == 0 {
      assert a + b == b;
    } else {
      var rest := a[1..] + b;
      assert (a + b)[0] == a[0] && (a + b)[1..] == rest;
      RemoveCharAppend(a[1..], b, c);
      RemoveCharStep(a + b, rest, a[0], c);
      RemoveCharStep(a, a[1..], a[0], c);
      ConcatAssoc(if a[0] == c then [] else [a[0]], RemoveChar(a[1..], c), RemoveChar(b, c));
    }
  }

  lemma RemoveCharStep(s: string, rest: string, x: char, c: char)
    requires |s| > 0 && s[0] == x && s[1..] == rest
    ensures RemoveChar(s, c) == (if x == c then [] else [x]) + RemoveChar(rest, c)
  {
  }

  lemma ConcatAssoc<T>(a: seq<T>, b: seq<T>, c: seq<T>)
    ensures a + (b + c) == (a + b) + c
  {
  }

  lemma {:induction false} ReplaceCharAppend(a: string, b: string, from: char, to: char)
    ensures ReplaceChar(a + b, from, to) == ReplaceChar(a, from, to) + ReplaceChar(b, from, to)
  {
  }

  /** A string without `c` is left alone by both character operations. */
  lemma {:induction false} AbsentCharUntouched(s: string, c: char, to: char)
    requires c !in s
    ensures RemoveChar(s, c) == s
    ensures ReplaceChar(s, c, to) == s
    decreases |s|
  {
    if |s| > 0 {
      assert s == [s[0]] + s[1..];
      AbsentCharUntouched(s[1..], c, to);
    }
  }

  /** Position of the first `c` in `s`, or `|s|` when there is none. */
  function IndexOf(s: string, c: char): (i: nat)
    ensures i <= |s|
    ensures i < |s| ==> s[i] == c
    ensures c !in s[..i]
  {
    if |s| == 0 then 0
    else if s[0] == c then 0
    else
      var j := IndexOf(s[1..], c);
      assert s[..j + 1] == [s[0]] + s[1..][..j];
      j + 1
  }

  /** The first `c` of `s` is the one with no `c` before it. */
  lemma IndexOfFirst(s: string, c: char, i: int)
    requires 0 <= i <= |s| && (i < |s| ==> s[i] == c) && c !in s[..i]
    ensures IndexOf(s, c) == i
  {
  }

  /** How Python's `re` compares a character against a lower-case ASCII letter
      of a pattern under IGNORECASE: ASCII capitals fold to lower case, and
      the four non-ASCII letters Python folds onto ASCII ones do so too. */
  function FoldCase(c: char): (r: char)
    ensures 'A' <= c <= 'Z' ==> r as int == c as int + 32
  {
    if 'A' <= c <= 'Z' then (c as int + 32) as char
    else if c == '\U{130}' || c == '\U{131}' then 'i'
    else if c == '\U{17F}' then 's'
    else if c == '\U{212A}' then 'k'
    else c
  }

  predicate MatchesAt(s: string, pat: string, i: int)
    requires 0 <= i <= |s| - |pat|
  {
    forall k | 0 <= k < |pat| :: FoldCase(s[i + k]) == pat[k]
  }

  /** Case-insensitive search for the lower-case pattern `pat` anywhere in
      `s`: true exactly when some window of `s` folds onto `pat`. */
  function ContainsFolded(s: string, pat: string): (found: bool)
    ensures found <==> exists i | 0 <= i <= |s| - |pat| :: MatchesAt(s, pat, i)
    decreases |s|
  {
    if |s| < |pat| then false
    else if MatchesAt(s, pat, 0) then true
    else
      var rest := ContainsFolded(s[1..], pat);
      assert rest ==> exists i | 0 <= i <= |s| - |pat| :: MatchesAt(s, pat, i) by {
        if rest {
          var j :| 0 <= j <= |s[1..]| - |pat| && MatchesAt(s[1..], pat, j);
          assert MatchesAt(s, pat, j + 1);
        }
      }
      assert (exists i | 0 <= i <= |s| - |pat| :: MatchesAt(s, pat, i)) ==> rest by {
        if exists i | 0 <= i <= |s| - |pat| :: MatchesAt(s, pat, i) {
          var i :| 0 <= i <= |s| - |pat| && MatchesAt(s, pat, i);
          assert i != 0;
          assert MatchesAt(s[1..], pat, i - 1);
        }
      }
      rest
  }
}
