/**
 * Longest nice substring (leetcode/problems/1763.c): a stretch of a string
 * is nice when every character in it has a partner 32 codes above or below
 * it in the same stretch (for letters: its other case). The source tries
 * every stretch by brute force, keeps the first of the longest, and cuts
 * the input string there by writing a NUL after it.
 */
module NiceSubstring {
  /**
   * The characters the source's table lookups stay inside `char ascii[256]`
   * for: `ascii[c - 32]` needs c >= 32 and a signed `char` is below 128.
   */
  predicate Printable(s: string)
  {
    forall k :: 0 <= k < |s| ==> 32 <= s[k] as int < 128
  }

  /** Some character of s[b..e] (both ends included) has the code c. */
  ghost predicate Occurs(s: string, b: int, e: int, c: int)
  {
    exists k :: b <= k <= e && 0 <= k < |s| && s[k] as int == c
  }

  /** The character at k has a partner 32 codes above or below it in s[b..e]. */
  ghost predicate Paired(s: string, b: int, e: int, k: int)
    requires 0 <= k < |s|
  {
    Occurs(s, b, e, s[k] as int + 32) || Occurs(s, b, e, s[k] as int - 32)
  }

  /** s[b..e] is nice: every character in it is paired inside it. */
  ghost predicate Nice(s: string, b: int, e: int)
    requires 0 <= b && e < |s|
  {
    forall k :: b <= k <= e ==> Paired(s, b, e, k)
  }

  /**
   * isNiceSubstring: mark every code of s[begin..end] in a 256-entry table,
   * then check each character's code plus 32 and minus 32 against it.
   */
  method IsNiceSubstring(s: string, begin: int, end: int) returns (r: bool)
    requires 0 <= begin <= end < |s| && Printable(s)
    ensures r <==> Nice(s, begin, end)
  {
    var ascii := new int[256](_ => 0);
    var i := begin;
    while i <= end
      invariant begin <= i <= end + 1
      invariant forall c :: 0 <= c < 256 ==> (ascii[c] == 1 <==> Occurs(s, begin, i - 1, c))
    {
      ascii[s[i] as int] := 1;
      forall c | 0 <= c < 256
        ensures ascii[c] == 1 <==> Occurs(s, begin, i, c)
      {
        if Occurs(s, begin, i, c) && s[i] as int != c {
          var k :| begin <= k <= i && 0 <= k < |s| && s[k] as int == c;
          assert k < i;
        }
      }
      i := i + 1;
    }
    i := begin;
    while i <= end
      invariant begin <= i <= end + 1
      invariant forall c :: 0 <= c < 256 ==> (ascii[c] == 1 <==> Occurs(s, begin, end, c))
      invariant forall k :: begin <= k < i ==> Paired(s, begin, end, k)
    {
      if ascii[s[i] as int + 32] == 1 || ascii[s[i] as int - 32] == 1 {
        i := i + 1;
        continue;
      }
      assert !Paired(s, begin, end, i);
      return false;
    }
    return true;
  }

  /**
   * (begin, maxLen) is the source's answer for s: maxLen is the length of
   * the longest nice stretch (0 if there is none, and then begin is 0), the
   * stretch at begin of that length is nice, and every nice stretch that
   * starts earlier is strictly shorter.
   */
  ghost predicate LongestEarliest(s: string, begin: int, maxLen: int)
  {
    && 0 <= begin && 0 <= maxLen && begin + maxLen <= |s|
    && (maxLen == 0 ==> begin == 0)
    && (maxLen > 0 ==> Nice(s, begin, begin + maxLen - 1))
    && (forall i, j :: 0 <= i <= j < |s| && Nice(s, i, j) ==> j - i + 1 <= maxLen)
    && (forall i, j :: 0 <= i < begin && i <= j < |s| && Nice(s, i, j) ==> j - i + 1 < maxLen)
  }

  /**
   * The state of the double loop once every stretch (i', j') before (i, j)
   * in scan order has been tried: LongestEarliest restricted to those.
   */
  ghost predicate Scanned(s: string, i: int, j: int, begin: int, maxLen: int)
  {
    && 0 <= begin && 0 <= maxLen && begin + maxLen <= |s|
    && (maxLen == 0 ==> begin == 0)
    && (maxLen > 0 ==> Nice(s, begin, begin + maxLen - 1) && begin <= i)
    && (forall i', j' :: 0 <= i' <= j' < |s| && (i' < i || (i' == i && j' < j)) && Nice(s, i', j') ==> j' - i' + 1 <= maxLen)
    && (forall i', j' :: 0 <= i' < begin && i' <= j' < |s| && (i' < i || (i' == i && j' < j)) && Nice(s, i', j') ==> j' - i' + 1 < maxLen)
  }

  /** Trying the stretch (i, j) moves the scan on to (i, j + 1). */
  lemma TryStretch(s: string, i: int, j: int, begin: int, maxLen: int, nice: bool)
    requires 0 <= i <= j < |s| && Scanned(s, i, j, begin, maxLen)
    requires nice <==> Nice(s, i, j)
    ensures nice && maxLen < j - i + 1 ==> Scanned(s, i, j + 1, i, j - i + 1)
    ensures !(nice && maxLen < j - i + 1) ==> Scanned(s, i, j + 1, begin, maxLen)
  {
    if nice && maxLen < j - i + 1 {
      assert i + (j - i + 1) - 1 == j;
    }
  }

  /** The first stretch that starts at i + 1 comes right after the last one that starts at i. */
  lemma NextStart(s: string, i: int, begin: int, maxLen: int)
    requires 0 <= i < |s| && Scanned(s, i, |s|, begin, maxLen)
    ensures Scanned(s, i + 1, i + 1, begin, maxLen)
  {
  }

  /**
   * The nested loops of longestNiceSubstring: every stretch s[i..j] in
   * order, keeping a nice one only when it is strictly longer than the
   * best so far.
   */
  method LongestNice(s: string) returns (begin: int, maxLen: int)
    requires Printable(s)
    ensures LongestEarliest(s, begin, maxLen)
  {
    begin, maxLen := 0, 0;
    var i := 0;
    while i < |s|
      invariant 0 <= i <= |s| && Scanned(s, i, i, begin, maxLen)
    {
      var j := i;
      while j < |s|
        invariant i <= j <= |s| && Scanned(s, i, j, begin, maxLen)
      {
        var nice := IsNiceSubstring(s, i, j);
        TryStretch(s, i, j, begin, maxLen, nice);
        if nice {
          var subLength := j - i + 1;
          if maxLen < subLength {
            maxLen := subLength;
            begin := i;
          }
        }
        j := j + 1;
      }
      NextStart(s, i, begin, maxLen);
      i := i + 1;
    }
  }

  /**
   * longestNiceSubstring on a NUL-terminated buffer: the answer starts at
   * `sub`, and a NUL written at sub + maxLen ends it there; nothing else in
   * the buffer changes.
   */
  method LongestNiceSubstring(s: array<char>) returns (sub: int, maxLen: int)
    requires s.Length >= 1 && s[s.Length - 1] == '\0' && Printable(s[..s.Length - 1])
    modifies s
    ensures LongestEarliest(old(s[..s.Length - 1]), sub, maxLen)
    ensures s[..] == old(s[..])[sub + maxLen := '\0']
  {
    sub, maxLen := LongestNice(s[..s.Length - 1]);
    s[sub + maxLen] := '\0';
  }

  /** The answer is the string the NUL leaves at sub: the longest nice stretch, with no NUL inside. */
  lemma CutLeavesAnswer(text: string, s: seq<char>, sub: int, maxLen: int)
    requires Printable(text) && |s| == |text| + 1 && s[..|text|] == text
    requires LongestEarliest(text, sub, maxLen)
    ensures var cut := s[sub + maxLen := '\0'];
      cut[sub + maxLen] == '\0' && cut[sub..sub + maxLen] == text[sub..sub + maxLen]
      && forall k :: sub <= k < sub + maxLen ==> cut[k] != '\0'
  {
    var cut := s[sub + maxLen := '\0'];
    forall k | sub <= k < sub + maxLen
      ensures cut[k] == text[k] && cut[k] != '\0'
    {
      assert s[k] == s[..|text|][k];
    }
  }

  /** Two answers both meeting LongestEarliest are the same answer. */
  lemma LongestEarliestUnique(s: string, b1: int, m1: int, b2: int, m2: int)
    requires LongestEarliest(s, b1, m1) && LongestEarliest(s, b2, m2)
    ensures b1 == b2 && m1 == m2
  {
    if m1 > 0 {
      assert b1 + m1 - 1 - b1 + 1 == m1;
    }
    if m2 > 0 {
      assert b2 + m2 - 1 - b2 + 1 == m2;
    }
  }

  /** No single character is nice, so a nice stretch has at least two characters. */
  lemma NiceNeedsTwo(s: string, b: int, e: int)
    requires 0 <= b <= e < |s|
    ensures Nice(s, b, e) ==> e - b + 1 >= 2
  {
    if b == e {
      Unpaired(s, b, e, b);
    }
  }

  /** A character with no partner anywhere in a stretch makes the stretch not nice. */
  lemma Unpaired(s: string, b: int, e: int, k: int)
    requires 0 <= b <= k <= e < |s|
    requires forall m :: b <= m <= e ==> s[m] as int != s[k] as int + 32 && s[m] as int != s[k] as int - 32
    ensures !Nice(s, b, e)
  {
    assert !Paired(s, b, e, k);
  }

  /** The check does not look at letters only: '@' (64) and '`' (96) make a nice pair. */
  lemma NotOnlyLetters()
    ensures Nice("@`", 0, 1)
  {
    var s := "@`";
    assert s[1] as int == s[0] as int + 32 && s[0] as int == s[1] as int - 32;
    assert Paired(s, 0, 1, 0) && Paired(s, 0, 1, 1);
  }

  /** The source's second and third tests: "Bb" is its own answer, and "c" has none. */
  lemma ShortKnownAnswers()
    ensures LongestEarliest("Bb", 0, 2)
    ensures LongestEarliest("c", 0, 0)
  {
    var s := "Bb";
    assert s[1] as int == s[0] as int + 32 && s[0] as int == s[1] as int - 32;
    assert Paired(s, 0, 1, 0) && Paired(s, 0, 1, 1);
    NiceNeedsTwo("c", 0, 0);
  }

  /** The source's first test: in "YazaAay" the answer is "aAa", at index 3. */
  lemma FirstKnownAnswer()
    ensures LongestEarliest("YazaAay", 3, 3) && "YazaAay"[3..6] == "aAa"
  {
    var s := "YazaAay";
    assert Paired(s, 3, 5, 3) && Paired(s, 3, 5, 4) && Paired(s, 3, 5, 5) by {
      assert s[4] as int == s[3] as int - 32 && s[3] as int == s[4] as int + 32;
      assert s[5] as int == s[4] as int + 32;
    }
    forall i, j | 0 <= i <= j < 7 && (j - i + 1 > 3 || (i < 3 && j - i + 1 == 3))
      ensures !Nice(s, i, j)
    {
      if i <= 2 <= j {
        Unpaired(s, i, j, 2);
      } else if j < 2 {
        Unpaired(s, i, j, 0);
      } else {
        Unpaired(s, i, j, 6);
      }
    }
  }
}
