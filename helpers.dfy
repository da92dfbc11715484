/**
 * The downloader's small helpers: the filename sanitiser applied to every
 * video and playlist title, and the arithmetic of the progress callback.
 */
module Helpers {
  import opened PyStr

  /** The characters the sanitiser deletes: `\ / * ? : " < > |`. */
  predicate IsIllegal(c: char) {
    c == '\\' || c == '/' || c == '*' || c == '?' || c == ':' || c == '"' || c == '<' || c == '>' || c == '|'
  }

  predicate NoIllegal(s: string) {
    forall i :: 0 <= i < |s| ==> !IsIllegal(s[i])
  }

  /** The placeholder used when a title has nothing left after cleaning. */
  const Untitled: string := "Untitled"

  /** The regular-expression substitution that deletes every illegal character. */
  function RemoveIllegal(s: string): (r: string)
    ensures NoIllegal(r)
    ensures forall i :: 0 <= i < |r| ==> r[i] in s
    ensures forall i :: 0 <= i < |s| && !IsIllegal(s[i]) ==> s[i] in r
  {
    if s == [] then []
    else (if IsIllegal(s[0]) then [] else [s[0]]) + RemoveIllegal(s[1..])
  }

  /** A text without illegal characters is left exactly as it is. */
  lemma {:induction false} RemoveIllegalClean(s: string)
    requires NoIllegal(s)
    ensures RemoveIllegal(s) == s
  {
    if s != [] {
      RemoveIllegalClean(s[1..]);
      assert s == [s[0]] + s[1..];
    }
  }

  /** Every character the sanitiser keeps is kept as often as it occurs, and no other is added. */
  lemma {:induction false} RemoveIllegalCounts(s: string)
    ensures forall c :: !IsIllegal(c) ==> multiset(RemoveIllegal(s))[c] == multiset(s)[c]
    ensures forall c :: IsIllegal(c) ==> multiset(RemoveIllegal(s))[c] == 0
  {
    if s != [] {
      RemoveIllegalCounts(s[1..]);
      var head := if IsIllegal(s[0]) then [] else [s[0]];
      assert RemoveIllegal(s) == head + RemoveIllegal(s[1..]);
      assert s == [s[0]] + s[1..];
      assert multiset(RemoveIllegal(s)) == multiset(head) + multiset(RemoveIllegal(s[1..]));
      assert multiset(s) == multiset([s[0]]) + multiset(s[1..]);
    }
  }

  /** Deletion works character by character, so it distributes over concatenation. */
  lemma {:induction false} RemoveIllegalConcat(a: string, b: string)
    ensures RemoveIllegal(a + b) == RemoveIllegal(a) + RemoveIllegal(b)
  {
    if a != [] {
      var head := if IsIllegal(a[0]) then [] else [a[0]];
      assert RemoveIllegal(a + b) == head + RemoveIllegal(a[1..] + b) by {
        assert (a + b)[0] == a[0] && (a + b)[1..] == a[1..] + b;
      }
      RemoveIllegalConcat(a[1..], b);
      assert head + (RemoveIllegal(a[1..]) + RemoveIllegal(b)) == (head + RemoveIllegal(a[1..])) + RemoveIllegal(b);
    } else {
      assert a + b == b;
    }
  }

  /**
   * `safe_filename`: the title without illegal characters and without
   * surrounding whitespace, or `Untitled` when that leaves nothing.
   */
  function SafeFilename(name: string): (r: string)
    ensures r != [] && NoIllegal(r)
    ensures !IsSpace(r[0]) && !IsSpace(r[|r| - 1])
    ensures r == Untitled || forall c :: c in r ==> c in name
  {
    var t := Strip(RemoveIllegal(name));
    CleanedChars(name);
    UntitledClean();
    if t == [] then Untitled else t
  }

  /** The placeholder is a name the sanitiser would leave alone. */
  lemma UntitledClean()
    ensures Untitled != [] && NoIllegal(Untitled)
    ensures !IsSpace(Untitled[0]) && !IsSpace(Untitled[|Untitled| - 1])
  {
  }

  /** Cleaning keeps only characters of the title and leaves none the sanitiser deletes. */
  lemma CleanedChars(name: string)
    ensures NoIllegal(Strip(RemoveIllegal(name)))
    ensures forall c :: c in Strip(RemoveIllegal(name)) ==> c in name
  {
    var cleaned := RemoveIllegal(name);
    var u1, u2 := StripSplit(cleaned);
    var t := Strip(cleaned);
    forall i | 0 <= i < |t| ensures !IsIllegal(t[i]) && t[i] in name {
      assert t[i] == cleaned[|u1| + i];
    }
  }

  /** A name that is already clean is left exactly as it is. */
  lemma SafeFilenameFixpoint(name: string)
    requires name != [] && NoIllegal(name)
    requires !IsSpace(name[0]) && !IsSpace(name[|name| - 1])
    ensures SafeFilename(name) == name
  {
    RemoveIllegalClean(name);
    StripTrimmed(name);
  }

  /** Sanitising twice gives the same name as sanitising once. */
  lemma SafeFilenameIdempotent(name: string)
    ensures SafeFilename(SafeFilename(name)) == SafeFilename(name)
  {
    SafeFilenameFixpoint(SafeFilename(name));
  }

  /** A string strips to nothing exactly when it is all whitespace. */
  lemma StripEmpty(s: string)
    ensures Strip(s) == [] <==> AllSpace(s)
  {
    if AllSpace(s) {
      assert s + [] + [] == s;
      StripUnique(s, [], []);
    } else {
      var u1, u2 := StripSplit(s);
      AllSpaceConcat(u1, u2);
    }
  }

  /**
   * The placeholder comes out exactly when every character of the title is
   * illegal or whitespace, or when the cleaned title is the placeholder itself.
   */
  lemma SafeFilenameUntitled(name: string)
    ensures SafeFilename(name) == Untitled <==>
      (forall i :: 0 <= i < |name| ==> IsIllegal(name[i]) || IsSpace(name[i])) ||
      Strip(RemoveIllegal(name)) == Untitled
  {
    var cleaned := RemoveIllegal(name);
    StripEmpty(cleaned);
    if forall i :: 0 <= i < |name| ==> IsIllegal(name[i]) || IsSpace(name[i]) {
      forall i | 0 <= i < |cleaned| ensures IsSpace(cleaned[i]) {
        assert cleaned[i] in cleaned;
      }
    } else {
      var i :| 0 <= i < |name| && !IsIllegal(name[i]) && !IsSpace(name[i]);
      assert name[i] in name;
    }
  }

  /**
   * The progress callback's count of bytes received: the file's size less
   * the bytes still to come.
   */
  function Downloaded(total: int, bytesRemaining: int): (n: int)
    ensures n + bytesRemaining == total
    ensures 0 <= bytesRemaining <= total ==> 0 <= n <= total
    ensures bytesRemaining == 0 ==> n == total
  {
    total - bytesRemaining
  }

  /** As the bytes remaining fall from chunk to chunk, the count shown never goes back. */
  lemma DownloadedMonotone(total: int, before: int, after: int)
    requires after <= before
    ensures Downloaded(total, before) <= Downloaded(total, after)
  {
  }
}
