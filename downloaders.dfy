/**
 * The decisions the worker and the two download routines take before
 * handing a link to the media library: which routine a link goes to, and
 * which folder a playlist is saved in.
 */
module Downloaders {
  import opened PyStr
  import opened Helpers
  import opened UrlValidator

  datatype Handler = VideoHandler | PlaylistHandler

  /**
   * The worker's dispatch: a link goes to the playlist routine when the
   * text `playlist` occurs in it, compared case-sensitively.
   */
  function Dispatch(url: string): (h: Handler)
    ensures h == PlaylistHandler <==> exists j :: OccursAt(url, "playlist", j)
  {
    if Contains(url, "playlist") then PlaylistHandler else VideoHandler
  }

  /** An occurrence in `s` is still one after text is appended. */
  lemma OccursAtAppend(s: string, rest: string, pat: string, j: int)
    requires OccursAt(s, pat, j)
    ensures OccursAt(s + rest, pat, j)
  {
    assert (s + rest)[j..j + |pat|] == s[j..j + |pat|];
  }

  /** `pat` occurs in `a + pat + b` right after `a`. */
  lemma OccursBetween(a: string, pat: string, b: string)
    ensures OccursAt(a + pat + b, pat, |a|)
  {
    assert (a + pat + b)[|a|..|a| + |pat|] == pat;
  }

  /** Each playlist-page prefix holds the word `playlist`, fourteen characters from its end. */
  lemma PlaylistWordIn(k: nat)
    requires k < |Prefixes(PlaylistPage)|
    ensures OccursAt(Prefixes(PlaylistPage)[k], "playlist", |Prefixes(PlaylistPage)[k]| - 14)
  {
    var ps := Prefixes(PlaylistPage);
    if k == 0 {
      assert ps[0] == "http://youtube.com/" + "playlist" + "?list=";
      OccursBetween("http://youtube.com/", "playlist", "?list=");
    } else if k == 1 {
      assert ps[1] == "https://youtube.com/" + "playlist" + "?list=";
      OccursBetween("https://youtube.com/", "playlist", "?list=");
    } else if k == 2 {
      assert ps[2] == "http://www.youtube.com/" + "playlist" + "?list=";
      OccursBetween("http://www.youtube.com/", "playlist", "?list=");
    } else {
      assert ps[3] == "https://www.youtube.com/" + "playlist" + "?list=";
      OccursBetween("https://www.youtube.com/", "playlist", "?list=");
    }
  }

  /** Every playlist page written with a lower-case prefix goes to the playlist routine. */
  lemma PlaylistPageDispatched(p: string, rest: string)
    requires p in Prefixes(PlaylistPage)
    ensures Dispatch(p + rest) == PlaylistHandler
  {
    var k :| 0 <= k < |Prefixes(PlaylistPage)| && Prefixes(PlaylistPage)[k] == p;
    PlaylistWordIn(k);
    OccursAtAppend(p, rest, "playlist", |p| - 14);
  }

  /** The upper-case playlist prefix folds to the lower-case one. */
  lemma UpperCasePrefixFolds()
    ensures Lower("HTTPS://YOUTUBE.COM/PLAYLIST?LIST=") == Prefixes(PlaylistPage)[1]
  {
    var p := "HTTPS://YOUTUBE.COM/PLAYLIST?LIST=";
    var q := "https://youtube.com/playlist?list=";
    assert forall i :: 0 <= i < |p| ==> LowerChar(p[i]) == q[i];
  }

  /** An upper-case playlist link is valid: validation ignores case. */
  lemma UpperCasePlaylistValid()
    ensures IsValidYoutubeUrl("HTTPS://YOUTUBE.COM/PLAYLIST?LIST=PL1")
  {
    var p, id := "HTTPS://YOUTUBE.COM/PLAYLIST?LIST=", "PL1";
    assert "HTTPS://YOUTUBE.COM/PLAYLIST?LIST=PL1" == p + id + [];
    UpperCasePrefixFolds();
    AcceptedParts(p, id, [], PlaylistPage);
  }

  /**
   * The dispatch test is case-sensitive while validation is not: the
   * upper-case playlist link is handed to the video routine.
   */
  lemma UpperCasePlaylistGoesToVideo()
    ensures Dispatch("HTTPS://YOUTUBE.COM/PLAYLIST?LIST=PL1") == VideoHandler
  {
    var s := "HTTPS://YOUTUBE.COM/PLAYLIST?LIST=PL1";
    assert s[0..|s|] == s;
    NoOccurrenceBetween(s, "playlist", 0, |s|);
  }

  /**
   * The folder a playlist is saved in, under the output directory: the sanitised
   * playlist title, or, when that is the placeholder, the text after the
   * last `list=` of the link, or the whole link if it has none.
   */
  function PlaylistFolderName(title: string, url: string): (r: string)
    ensures SafeFilename(title) != Untitled ==> r == SafeFilename(title) && NoIllegal(r)
    ensures SafeFilename(title) == Untitled ==>
      |r| <= |url| && r == url[|url| - |r|..] && (forall j :: !OccursAt(r, "list=", j)) &&
      (r == url || OccursAt(url, "list=", |url| - |r| - 5))
    ensures SafeFilename(title) == Untitled && (forall j :: !OccursAt(url, "list=", j)) ==> r == url
  {
    var t := SafeFilename(title);
    if t == Untitled then SplitLast(url, "list=") else t
  }

  /** The lower-case playlist prefix folds to itself. */
  lemma PlaylistPrefixFolds()
    ensures Lower("https://youtube.com/playlist?list=") == Prefixes(PlaylistPage)[1]
  {
    var p := "https://youtube.com/playlist?list=";
    assert forall i :: 0 <= i < |p| ==> !('A' <= p[i] <= 'Z');
  }

  /** A playlist link whose tail holds a second `list=` followed by a relative path. */
  lemma EscapingLinkValid()
    ensures IsValidYoutubeUrl("https://youtube.com/playlist?list=PL1&list=../x")
  {
    var p, id, tail := "https://youtube.com/playlist?list=", "PL1", "&list=../x";
    assert "https://youtube.com/playlist?list=PL1&list=../x" == p + id + tail;
    PlaylistPrefixFolds();
    AcceptedParts(p, id, tail, PlaylistPage);
  }

  /**
   * The fallback is not sanitised: for that valid link, a title that
   * sanitises to the placeholder gives the folder `../x`, outside the output directory.
   */
  lemma PlaylistFolderEscapes()
    ensures PlaylistFolderName("", "https://youtube.com/playlist?list=PL1&list=../x") == "../x"
  {
    var s := "https://youtube.com/playlist?list=PL1&list=../x";
    assert SafeFilename("") == Untitled;
    assert s[33..38] == "=PL1&" && s[38..43] == "list=" && s[39..] == "ist=../x" && s[43..] == "../x";
    NoOccurrenceBetween(s, "list=", 34, 38);
    NoOccurrenceBetween(s, "list=", 39, |s|);
    SplitLastAt(s, "list=", 38);
  }

  /** The names that, joined under a directory, name that directory or its parent. */
  predicate IsDotName(s: string) {
    s == "." || s == ".."
  }

  /**
   * The sanitiser keeps dots, so a playlist titled `..` is saved in the
   * folder `..`, the parent of the output directory, whatever the link.
   */
  lemma PlaylistFolderDotTitle(url: string)
    ensures SafeFilename("..") == ".."
    ensures PlaylistFolderName("..", url) == ".."
  {
    SafeFilenameFixpoint("..");
  }

  /** A playlist link whose tail holds a second `list=` followed by `..`. */
  lemma DotLinkValid()
    ensures IsValidYoutubeUrl("https://youtube.com/playlist?list=PL1&list=..")
  {
    var p, id, tail := "https://youtube.com/playlist?list=", "PL1", "&list=..";
    assert "https://youtube.com/playlist?list=PL1&list=.." == p + id + tail;
    PlaylistPrefixFolds();
    AcceptedParts(p, id, tail, PlaylistPage);
  }

  /**
   * The fallback escapes the same way: for that valid link and a title that
   * sanitises to the placeholder, the folder is `..`, which sanitising would
   * leave as it is.
   */
  lemma PlaylistFolderDotFallback()
    ensures PlaylistFolderName("", "https://youtube.com/playlist?list=PL1&list=..") == ".."
  {
    var s := "https://youtube.com/playlist?list=PL1&list=..";
    assert SplitLast(s, "list=") == ".." by {
      assert s[33..38] == "=PL1&" && s[38..43] == "list=" && s[39..] == "ist=.." && s[43..] == "..";
      NoOccurrenceBetween(s, "list=", 34, 38);
      NoOccurrenceBetween(s, "list=", 39, |s|);
      SplitLastAt(s, "list=", 38);
    }
    assert SafeFilename("") == Untitled;
  }

  /**
   * The rule as intended: the fallback is sanitised like the title, and a
   * name that would name the output directory or its parent is replaced by
   * the placeholder. The folder is then never empty, never `.` or `..`, and
   * never holds a path separator or another character the sanitiser
   * deletes, whatever the title and the link; otherwise it is the name the
   * rule as written picks, sanitised.
   */
  function PlaylistFolderNameSafe(title: string, url: string): (r: string)
    ensures r != [] && NoIllegal(r) && '/' !in r && '\\' !in r && !IsDotName(r)
    ensures var t := SafeFilename(title);
      t != Untitled && !IsDotName(t) ==> r == PlaylistFolderName(title, url)
    ensures var f := SafeFilename(PlaylistFolderName(title, url));
      SafeFilename(title) == Untitled && !IsDotName(f) ==> r == f
    ensures var t := SafeFilename(title);
      IsDotName(if t == Untitled then SafeFilename(PlaylistFolderName(title, url)) else t) ==> r == Untitled
  {
    var t := SafeFilename(title);
    var name := if t == Untitled then SafeFilename(SplitLast(url, "list=")) else t;
    UntitledClean();
    if IsDotName(name) then Untitled else name
  }
}
