/**
 * The few Python `str` operations the downloader relies on, stated over
 * `seq<char>`: `strip()` with no argument, the substring test `sub in s`
 * and the last piece of `s.split(sep)`.
 */
module PyStr {
  import opened Wrappers

  /** The characters for which Python's `str.isspace()` holds; `strip()` removes these. */
  predicate IsSpace(c: char) {
    c == ' ' || ('\t' <= c <= '\r') || ('\U{1c}' <= c <= '\U{1f}') ||
    c == '\U{85}' || c == '\U{a0}' || c == '\U{1680}' || ('\U{2000}' <= c <= '\U{200a}') ||
    c == '\U{2028}' || c == '\U{2029}' || c == '\U{202f}' || c == '\U{205f}' || c == '\U{3000}'
  }

  predicate AllSpace(s: string) {
    forall i :: 0 <= i < |s| ==> IsSpace(s[i])
  }

  /** The length of the longest prefix of `s` whose characters all satisfy `p`. */
  function Span(s: string, p: char -> bool): (n: nat)
    ensures n <= |s|
    ensures forall i :: 0 <= i < n ==> p(s[i])
    ensures n < |s| ==> !p(s[n])
  {
    if s == [] || !p(s[0]) then 0 else 1 + Span(s[1..], p)
  }

  /** The length of the longest suffix of `s` whose characters all satisfy `p`. */
  function SpanBack(s: string, p: char -> bool): (n: nat)
    ensures n <= |s|
    ensures forall i :: |s| - n <= i < |s| ==> p(s[i])
    ensures n < |s| ==> !p(s[|s| - 1 - n])
  {
    if s == [] || !p(s[|s| - 1]) then 0 else 1 + SpanBack(s[..|s| - 1], p)
  }

  /** Python's `s.strip()`: `s` without its leading and trailing whitespace. */
  function Strip(s: string): (r: string)
    ensures |r| <= |s|
    ensures r == [] || (!IsSpace(r[0]) && !IsSpace(r[|r| - 1]))
  {
    var a := Span(s, IsSpace);
    var b := SpanBack(s[a..], IsSpace);
    s[a..|s| - b]
  }

  /**
   * `Strip` is determined by its contract: a string with no whitespace at
   * either end, surrounded by whitespace, strips to itself.
   */
  lemma {:induction false} StripUnique(w1: string, t: string, w2: string)
    requires AllSpace(w1) && AllSpace(w2)
    requires t == [] || (!IsSpace(t[0]) && !IsSpace(t[|t| - 1]))
    ensures Strip(w1 + t + w2) == t
  {
    var s := w1 + t + w2;
    var a := Span(s, IsSpace);
    if t == [] {
      assert AllSpace(s) by {
        forall i | 0 <= i < |s| ensures IsSpace(s[i]) {
          if i < |w1| { assert s[i] == w1[i]; } else { assert s[i] == w2[i - |w1|]; }
        }
      }
      assert a == |s|;
      assert s[a..] == [];
    } else {
      assert s[|w1|] == t[0];
      assert forall i :: 0 <= i < |w1| ==> s[i] == w1[i];
      assert a == |w1|;
      var rest := s[a..];
      assert rest == t + w2;
      var b := SpanBack(rest, IsSpace);
      assert rest[|rest| - 1 - |w2|] == t[|t| - 1];
      assert forall i :: |rest| - |w2| <= i < |rest| ==> rest[i] == w2[i - (|rest| - |w2|)];
      assert b == |w2|;
      assert s[a..|s| - b] == t;
    }
  }

  lemma AllSpaceConcat(a: string, b: string)
    requires AllSpace(a) && AllSpace(b)
    ensures AllSpace(a + b)
  {
    forall i | 0 <= i < |a + b| ensures IsSpace((a + b)[i]) {
      if i < |a| { assert (a + b)[i] == a[i]; } else { assert (a + b)[i] == b[i - |a|]; }
    }
  }

  /** `s` is what it strips to, with whitespace around it: `Strip` removes nothing else. */
  lemma StripSplit(s: string) returns (u1: string, u2: string)
    ensures AllSpace(u1) && AllSpace(u2) && s == u1 + Strip(s) + u2
  {
    var a := Span(s, IsSpace);
    var b := SpanBack(s[a..], IsSpace);
    assert Strip(s) == s[a..|s| - b];
    u1, u2 := s[..a], s[|s| - b..];
    assert AllSpace(u2) by {
      forall i | 0 <= i < |u2| ensures IsSpace(u2[i]) {
        assert u2[i] == s[a..][|s[a..]| - b + i];
      }
    }
    assert s == u1 + Strip(s) + u2 by {
      assert s == s[..a] + s[a..|s| - b] + s[|s| - b..];
    }
  }

  /** Whitespace added around a string does not change what it strips to. */
  lemma StripPadded(w1: string, s: string, w2: string)
    requires AllSpace(w1) && AllSpace(w2)
    ensures Strip(w1 + s + w2) == Strip(s)
  {
    var u1, u2 := StripSplit(s);
    var t := Strip(s);
    AllSpaceConcat(w1, u1);
    AllSpaceConcat(u2, w2);
    Regroup(w1, u1, t, u2, w2);
    StripUnique(w1 + u1, t, u2 + w2);
  }

  /** A string with no whitespace at either end strips to itself. */
  lemma StripTrimmed(t: string)
    requires t == [] || (!IsSpace(t[0]) && !IsSpace(t[|t| - 1]))
    ensures Strip(t) == t
  {
    assert [] + t + [] == t;
    StripUnique([], t, []);
  }

  lemma Regroup<T>(a: seq<T>, b: seq<T>, c: seq<T>, d: seq<T>, e: seq<T>)
    ensures a + (b + c + d) + e == (a + b) + c + (d + e)
  {
  }

  /** Stripping twice is stripping once. */
  lemma StripIdempotent(s: string)
    ensures Strip(Strip(s)) == Strip(s)
  {
    StripTrimmed(Strip(s));
  }

  /** `pat` occurs in `s` starting at index `j`. */
  predicate OccursAt(s: string, pat: string, j: int) {
    0 <= j && j + |pat| <= |s| && s[j..j + |pat|] == pat
  }

  /** Python's `s.find(pat)` with `-1` as `None`: the first index at which `pat` occurs. */
  function Find(s: string, pat: string): (r: Option<nat>)
    requires |pat| > 0
    ensures r.Some? ==> OccursAt(s, pat, r.value) && forall j :: 0 <= j < r.value ==> !OccursAt(s, pat, j)
    ensures r.None? ==> forall j :: !OccursAt(s, pat, j)
    decreases |s|
  {
    if |s| < |pat| then None
    else if s[..|pat|] == pat then Some(0)
    else
      match Find(s[1..], pat)
      case None =>
        assert forall j :: 1 <= j ==> (OccursAt(s, pat, j) <==> OccursAt(s[1..], pat, j - 1));
        None
      case Some(k) =>
        assert forall j :: 1 <= j ==> (OccursAt(s, pat, j) <==> OccursAt(s[1..], pat, j - 1));
        Some(k + 1)
  }

  /** Python's `pat in s`. */
  function Contains(s: string, pat: string): (r: bool)
    requires |pat| > 0
    ensures r <==> exists j :: OccursAt(s, pat, j)
  {
    Find(s, pat).Some?
  }

  /** An occurrence in a suffix of `s` is an occurrence in `s`, shifted. */
  lemma OccursAtShift(s: string, pat: string, d: nat, k: int)
    requires d <= |s| && OccursAt(s[d..], pat, k)
    ensures OccursAt(s, pat, k + d)
  {
    assert s[k + d..k + d + |pat|] == s[d..][k..k + |pat|];
  }

  /** One cut of `SplitLast`: what holds of the rest after the cut at `i` holds of `s`. */
  lemma SplitLastStep(s: string, sep: string, i: nat, r: string)
    requires OccursAt(s, sep, i)
    requires |r| <= |s| - i - |sep| && r == s[i + |sep|..][|s| - i - |sep| - |r|..]
    requires r == s[i + |sep|..] || OccursAt(s[i + |sep|..], sep, |s| - i - |sep| - |r| - |sep|)
    ensures |r| <= |s| && r == s[|s| - |r|..]
    ensures r == s || OccursAt(s, sep, |s| - |r| - |sep|)
  {
    var d := i + |sep|;
    var rest := s[d..];
    assert rest[|rest| - |r|..] == s[|s| - |r|..];
    if r != rest {
      OccursAtShift(s, sep, d, |rest| - |r| - |sep|);
    }
  }

  /**
   * Python's `s.split(sep)[-1]`: the splitting scans left to right and cuts
   * at each occurrence of `sep` not overlapping the previous cut; the result
   * is what follows the last cut, or all of `s` when there is none.
   */
  function SplitLast(s: string, sep: string): (r: string)
    requires |sep| > 0
    ensures |r| <= |s| && r == s[|s| - |r|..]
    ensures forall j :: !OccursAt(r, sep, j)
    ensures r == s || OccursAt(s, sep, |s| - |r| - |sep|)
    ensures (forall j :: !OccursAt(s, sep, j)) ==> r == s
    decreases |s|
  {
    var f := Find(s, sep);
    if f.None? then s
    else
      var i := f.value;
      assert OccursAt(s, sep, i);
      var r := SplitLast(s[i + |sep|..], sep);
      SplitLastStep(s, sep, i, r);
      r
  }

  /**
   * Where the last occurrence of `sep` is known, and no other occurrence
   * overlaps it, `SplitLast` gives what follows it.
   */
  lemma SplitLastAt(s: string, sep: string, k: nat)
    requires |sep| > 0 && OccursAt(s, sep, k)
    requires forall j :: k - |sep| < j && j != k ==> !OccursAt(s, sep, j)
    ensures SplitLast(s, sep) == s[k + |sep|..]
  {
    var r := SplitLast(s, sep);
    var n := |s| - k - |sep|;
    if |r| >= n + |sep| {
      OccursAtSuffix(s, sep, |s| - |r|, k);
      assert false;
    }
  }

  /** An occurrence inside a suffix of `s` is an occurrence in that suffix. */
  lemma OccursAtSuffix(s: string, pat: string, d: nat, j: int)
    requires d <= j && OccursAt(s, pat, j)
    ensures OccursAt(s[d..], pat, j - d)
  {
    assert s[d..][j - d..j - d + |pat|] == s[j..j + |pat|];
  }

  /** `pat` cannot start where its first character does not appear. */
  lemma NoOccurrenceBetween(s: string, pat: string, lo: nat, hi: nat)
    requires |pat| > 0 && lo <= hi <= |s| && pat[0] !in s[lo..hi]
    ensures forall j :: lo <= j < hi ==> !OccursAt(s, pat, j)
  {
    forall j | lo <= j < hi ensures !OccursAt(s, pat, j) {
      assert s[j] == s[lo..hi][j - lo];
      if j + |pat| <= |s| {
        assert s[j..j + |pat|][0] == s[j];
      }
    }
  }
}
