/**
 * `is_valid_youtube_url`: the clipboard text, stripped, must have one of
 * four shapes, compared case-insensitively:
 *
 *   http(s)://(www.)youtube.com/watch?v=<id>[&...]
 *   http(s)://(www.)youtube.com/playlist?list=<id>[&...]
 *   http(s)://youtu.be/<id>[?...]
 *   http(s)://(www.)youtube.com/shorts/<id>[?...]
 *
 * `<id>` is one or more of `A-Z a-z 0-9 _ -` and the optional tail after the
 * separator may hold anything but a line feed. `InShape` says this as a
 * description of strings; `Matches` is the hand-written matcher, and
 * `MatchesIff` proves the two agree.
 */
module UrlValidator {
  import opened PyStr

  datatype Shape = Watch | PlaylistPage | ShortLink | Shorts

  /** Every lower-case spelling of the text that comes before the id. */
  function Prefixes(shape: Shape): seq<string> {
    match shape
    case Watch =>
      ["http://youtube.com/watch?v=", "https://youtube.com/watch?v=",
       "http://www.youtube.com/watch?v=", "https://www.youtube.com/watch?v="]
    case PlaylistPage =>
      ["http://youtube.com/playlist?list=", "https://youtube.com/playlist?list=",
       "http://www.youtube.com/playlist?list=", "https://www.youtube.com/playlist?list="]
    case ShortLink =>
      ["http://youtu.be/", "https://youtu.be/"]
    case Shorts =>
      ["http://youtube.com/shorts/", "https://youtube.com/shorts/",
       "http://www.youtube.com/shorts/", "https://www.youtube.com/shorts/"]
  }

  /** The character that opens the optional tail after the id. */
  function Separator(shape: Shape): char {
    match shape
    case Watch => '&'
    case PlaylistPage => '&'
    case ShortLink => '?'
    case Shorts => '?'
  }

  /** The characters `[\w-]` admits, restricted to ASCII. */
  predicate IsIdChar(c: char) {
    ('a' <= c <= 'z') || ('A' <= c <= 'Z') || ('0' <= c <= '9') || c == '_' || c == '-'
  }

  predicate AllId(s: string) {
    forall i :: 0 <= i < |s| ==> IsIdChar(s[i])
  }

  /** ASCII lower case, the case folding under which the prefixes are compared. */
  function LowerChar(c: char): (d: char)
    ensures 'A' <= c <= 'Z' ==> 'a' <= d <= 'z' && d as int == c as int - 'A' as int + 'a' as int
    ensures !('A' <= c <= 'Z') ==> d == c
  {
    if 'A' <= c <= 'Z' then (c as int - 'A' as int + 'a' as int) as char else c
  }

  function Lower(s: string): (r: string)
    ensures |r| == |s| && forall i :: 0 <= i < |s| ==> r[i] == LowerChar(s[i])
  {
    seq(|s|, i requires 0 <= i < |s| => LowerChar(s[i]))
  }

  /** The optional tail: nothing, or the separator followed by anything but a line feed. */
  predicate IsTail(t: string, sep: char) {
    t == [] || (t[0] == sep && '\n' !in t)
  }

  /** `s` is one of the prefixes `ps` (in any case), an id, and a tail opened by `sep`. */
  ghost predicate InLanguage(s: string, ps: seq<string>, sep: char) {
    exists k1, k2 :: 0 <= k1 < k2 <= |s| &&
      Lower(s[..k1]) in ps && AllId(s[k1..k2]) && IsTail(s[k2..], sep)
  }

  /** The specification of one shape. */
  ghost predicate InShape(s: string, shape: Shape) {
    InLanguage(s, Prefixes(shape), Separator(shape))
  }

  /** After the prefix: the longest run of id characters, which must be non-empty, then a tail. */
  predicate RestMatches(r: string, sep: char) {
    var k := Span(r, IsIdChar);
    k > 0 && IsTail(r[k..], sep)
  }

  predicate MatchesAfter(s: string, p: string, sep: char) {
    |p| <= |s| && Lower(s[..|p|]) == p && RestMatches(s[|p|..], sep)
  }

  /** Tries the candidate prefixes one after the other. */
  function MatchesAny(s: string, ps: seq<string>, sep: char): (b: bool)
    ensures b <==> exists i :: 0 <= i < |ps| && MatchesAfter(s, ps[i], sep)
  {
    if ps == [] then false
    else if MatchesAfter(s, ps[0], sep) then true
    else
      var b := MatchesAny(s, ps[1..], sep);
      assert forall i :: 1 <= i < |ps| ==> ps[i] == ps[1..][i - 1];
      b
  }

  /** The matcher for one shape. */
  function Matches(s: string, shape: Shape): bool {
    MatchesAny(s, Prefixes(shape), Separator(shape))
  }

  /**
   * Because the separator is not an id character, the id is the longest run
   * of id characters: a split into id and tail exists exactly when the
   * greedy one works.
   */
  lemma {:induction false} RestMatchesIff(r: string, sep: char)
    requires !IsIdChar(sep)
    ensures RestMatches(r, sep) <==> exists k :: 0 < k <= |r| && AllId(r[..k]) && IsTail(r[k..], sep)
  {
    var n := Span(r, IsIdChar);
    if RestMatches(r, sep) {
      assert AllId(r[..n]);
    }
  }

  /** What the matcher accepts, the description admits. */
  lemma MatchesAnySound(s: string, ps: seq<string>, sep: char)
    requires !IsIdChar(sep) && MatchesAny(s, ps, sep)
    ensures InLanguage(s, ps, sep)
  {
    var i :| 0 <= i < |ps| && MatchesAfter(s, ps[i], sep);
    var k1 := |ps[i]|;
    var r := s[k1..];
    RestMatchesIff(r, sep);
    var k :| 0 < k <= |r| && AllId(r[..k]) && IsTail(r[k..], sep);
    assert r[..k] == s[k1..k1 + k] && r[k..] == s[k1 + k..];
    assert Lower(s[..k1]) in ps;
  }

  /** What the description admits, the matcher accepts. */
  lemma MatchesAnyComplete(s: string, ps: seq<string>, sep: char)
    requires !IsIdChar(sep) && InLanguage(s, ps, sep)
    ensures MatchesAny(s, ps, sep)
  {
    var k1, k2 :| 0 <= k1 < k2 <= |s| &&
      Lower(s[..k1]) in ps && AllId(s[k1..k2]) && IsTail(s[k2..], sep);
    var i :| 0 <= i < |ps| && ps[i] == Lower(s[..k1]);
    var r := s[k1..];
    assert r[..k2 - k1] == s[k1..k2] && r[k2 - k1..] == s[k2..];
    RestMatchesIff(r, sep);
    assert MatchesAfter(s, ps[i], sep);
  }

  /** The hand-written matcher accepts exactly the strings the shape describes. */
  lemma MatchesIff(s: string, shape: Shape)
    ensures Matches(s, shape) <==> InShape(s, shape)
  {
    var ps, sep := Prefixes(shape), Separator(shape);
    if Matches(s, shape) {
      MatchesAnySound(s, ps, sep);
    }
    if InShape(s, shape) {
      MatchesAnyComplete(s, ps, sep);
    }
  }

  /** `is_valid_youtube_url`: strip the text, then try the four shapes. */
  function IsValidYoutubeUrl(url: string): bool {
    var t := Strip(url);
    Matches(t, Watch) || Matches(t, PlaylistPage) || Matches(t, ShortLink) || Matches(t, Shorts)
  }

  /** A URL is valid exactly when its stripped text has one of the four shapes. */
  lemma IsValidYoutubeUrlIff(url: string)
    ensures IsValidYoutubeUrl(url) <==> exists shape :: InShape(Strip(url), shape)
  {
    var t := Strip(url);
    MatchesIff(t, Watch);
    MatchesIff(t, PlaylistPage);
    MatchesIff(t, ShortLink);
    MatchesIff(t, Shorts);
    if exists shape :: InShape(t, shape) {
      var shape :| InShape(t, shape);
      MatchesIff(t, shape);
    }
  }

  /** Whitespace around the text does not change the verdict. */
  lemma IsValidYoutubeUrlPadded(w1: string, url: string, w2: string)
    requires AllSpace(w1) && AllSpace(w2)
    ensures IsValidYoutubeUrl(w1 + url + w2) == IsValidYoutubeUrl(url)
  {
    StripPadded(w1, url, w2);
  }

  /** No prefix fits in text shorter than every prefix. */
  lemma TooShortRejected(s: string, shape: Shape)
    requires |s| < 16
    ensures !Matches(s, shape)
  {
    var ps := Prefixes(shape);
    assert forall i :: 0 <= i < |ps| ==> |ps[i]| >= 16;
  }

  /** A split into prefix, id and tail is a witness of the shape. */
  lemma InShapeAt(s: string, shape: Shape, k1: nat, k2: nat)
    requires 0 <= k1 < k2 <= |s|
    requires Lower(s[..k1]) in Prefixes(shape) && AllId(s[k1..k2]) && IsTail(s[k2..], Separator(shape))
    ensures InShape(s, shape)
  {
  }

  /**
   * A text without surrounding whitespace, split at `k1` and `k2` into a
   * prefix, an id and a tail of one shape, is accepted.
   */
  lemma AcceptedAt(s: string, shape: Shape, k1: nat, k2: nat)
    requires 0 <= k1 < k2 <= |s| && !IsSpace(s[0]) && !IsSpace(s[|s| - 1])
    requires Lower(s[..k1]) in Prefixes(shape) && AllId(s[k1..k2]) && IsTail(s[k2..], Separator(shape))
    ensures IsValidYoutubeUrl(s)
  {
    StripTrimmed(s);
    InShapeAt(s, shape, k1, k2);
    MatchesIff(s, shape);
  }

  /**
   * A prefix of one shape, an id and a tail, written one after the other and
   * with no whitespace at either end, make an accepted link.
   */
  lemma AcceptedParts(p: string, id: string, tail: string, shape: Shape)
    requires p != [] && !IsSpace(p[0]) && Lower(p) in Prefixes(shape)
    requires id != [] && AllId(id) && IsTail(tail, Separator(shape))
    requires tail == [] || !IsSpace(tail[|tail| - 1])
    ensures IsValidYoutubeUrl(p + id + tail)
  {
    var s := p + id + tail;
    assert s[..|p|] == p && s[|p|..|p| + |id|] == id && s[|p| + |id|..] == tail;
    assert s[0] == p[0];
    assert s[|s| - 1] == if tail == [] then id[|id| - 1] else tail[|tail| - 1];
    AcceptedAt(s, shape, |p|, |p| + |id|);
  }

  /** The monitor strips the text before validating it; validation strips again, to no effect. */
  lemma IsValidYoutubeUrlStripped(url: string)
    ensures IsValidYoutubeUrl(Strip(url)) == IsValidYoutubeUrl(url)
  {
    StripIdempotent(url);
  }

  /** Text too short to hold any prefix is rejected. */
  lemma NotAUrlRejected()
    ensures !IsValidYoutubeUrl("not a url")
  {
    var s := "not a url";
    StripTrimmed(s);
    TooShortRejected(s, Watch);
    TooShortRejected(s, PlaylistPage);
    TooShortRejected(s, ShortLink);
    TooShortRejected(s, Shorts);
  }

  /** The lower-case watch prefix with `www.` folds to itself. */
  lemma WatchPrefixFolds()
    ensures Lower("https://www.youtube.com/watch?v=") == Prefixes(Watch)[3]
  {
    var p := "https://www.youtube.com/watch?v=";
    assert forall i :: 0 <= i < |p| ==> !('A' <= p[i] <= 'Z');
  }

  /** A plain watch link is accepted. */
  lemma WatchLinkAccepted()
    ensures IsValidYoutubeUrl("https://www.youtube.com/watch?v=abc123")
  {
    var p, id := "https://www.youtube.com/watch?v=", "abc123";
    assert "https://www.youtube.com/watch?v=abc123" == p + id + [];
    WatchPrefixFolds();
    AcceptedParts(p, id, [], Watch);
  }
}
