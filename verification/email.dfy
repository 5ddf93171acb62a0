/**
 * The address check of `register`: the regular expression
 * `^[^\s@]+@[^\s@]+\.[^\s@]+$`, written out by hand.
 */
module Email {
  import opened Text

  /** A character of the class `[^\s@]`. */
  predicate Plain(c: char) {
    !IsSpace(c) && c != '@'
  }

  predicate AllPlain(s: string) {
    forall k :: 0 <= k < |s| ==> Plain(s[k])
  }

  /**
   * The pattern read directly: three non-empty runs of `[^\s@]`, the first
   * two separated by '@' at `i`, the last two by '.' at `j`.
   */
  ghost predicate MatchesAt(s: string, i: int, j: int) {
    && 0 < i && i + 1 < j && j + 1 < |s|
    && s[i] == '@' && s[j] == '.'
    && AllPlain(s[..i]) && AllPlain(s[i + 1..j]) && AllPlain(s[j + 1..])
  }

  ghost predicate MatchesPattern(s: string) {
    exists i, j :: MatchesAt(s, i, j)
  }

  /**
   * The format test as a computation: a non-empty run before the first '@',
   * nothing but `[^\s@]` after it, and a '.' there that is neither the
   * first nor the last character after the '@'.
   */
  function IsEmail(s: string): bool {
    '@' in s &&
    var i := IndexOf(s, '@');
    0 < i && i + 4 <= |s| && AllPlain(s[..i]) && AllPlain(s[i + 1..]) && '.' in s[i + 2..|s| - 1]
  }

  /** The computation accepts exactly the strings the regular expression matches. */
  lemma IsEmailMatchesPattern(s: string)
    ensures IsEmail(s) <==> MatchesPattern(s)
  {
    if IsEmail(s) {
      AcceptedMatches(s);
    }
    if MatchesPattern(s) {
      var i, j :| MatchesAt(s, i, j);
      MatchAccepted(s, i, j);
    }
  }

  lemma AcceptedMatches(s: string)
    requires IsEmail(s)
    ensures MatchesPattern(s)
  {
    var i := IndexOf(s, '@');
    var t := s[i + 2..|s| - 1];
    var k :| 0 <= k < |t| && t[k] == '.';
    var j := i + 2 + k;
    assert s[j] == '.';
    var rest := s[i + 1..];
    var mid := s[i + 1..j];
    var tail := s[j + 1..];
    forall m | 0 <= m < |mid|
      ensures Plain(mid[m])
    {
      assert mid[m] == rest[m];
    }
    forall m | 0 <= m < |tail|
      ensures Plain(tail[m])
    {
      assert tail[m] == rest[m + j - i];
    }
    assert MatchesAt(s, i, j);
  }

  lemma MatchAccepted(s: string, i: int, j: int)
    requires MatchesAt(s, i, j)
    ensures IsEmail(s)
  {
    var head := s[..i];
    forall m | 0 <= m < |head|
      ensures head[m] != '@'
    {
      assert Plain(head[m]);
    }
    IndexOfUnique(s, '@', i);
    var rest := s[i + 1..];
    var mid := s[i + 1..j];
    var tail := s[j + 1..];
    forall m | 0 <= m < |rest|
      ensures Plain(rest[m])
    {
      var p := i + 1 + m;
      if p < j {
        assert rest[m] == mid[m];
      } else if p > j {
        assert rest[m] == tail[p - (j + 1)];
      } else {
        assert rest[m] == '.';
      }
    }
    assert s[i + 2..|s| - 1][j - (i + 2)] == '.';
  }
}
