/**
 The regular expressions of the masker with their characters written out, and the proof that the
 scanners of the model are exactly these expressions: what they match, how far, and after what.
 */
module PathMaskRegex {
  import opened Sequences
  import opened PathMask
  import opened PathMaskRoots
  import opened PathMaskScan

  // ----- characters ---------------------------------------------------------------------

  /** `\s`: tab to carriage return, space, and the space and line separators of Unicode. */
  const BLANKS: string :=
    "\t\n\U{B}\U{C}\r \U{A0}\U{1680}"
    + "\U{2000}\U{2001}\U{2002}\U{2003}\U{2004}\U{2005}\U{2006}\U{2007}\U{2008}\U{2009}\U{200A}"
    + "\U{2028}\U{2029}\U{202F}\U{205F}\U{3000}\U{FEFF}"

  /** `[\s=:"'(,]` */
  predicate OpensPath(c: char) { c in BLANKS || c in "=:\"'(," }

  /** `[/\s"']` */
  predicate EndsName(c: char) { c in BLANKS || c in "/\"'" }

  /** `[A-Za-z]` */
  predicate IsAz(c: char) { 'a' <= c <= 'z' || 'A' <= c <= 'Z' }

  /** `[a-z0-9+.-]`, case ignored */
  predicate InScheme(c: char) { IsAz(c) || '0' <= c <= '9' || c in "+.-" }

  /** A user name free of white space, quotes, slashes, colons and tildes. */
  predicate PlainName(name: string) {
    name != [] && forall c :: c in name ==> c !in BLANKS && c !in "/\\\"':~"
  }

  /** w is the word, in small or capital letters. */
  predicate Spells(w: string, small: string, capital: string)
    requires |small| == |capital|
  {
    |w| == |small| && forall i :: 0 <= i < |w| ==> w[i] == small[i] || w[i] == capital[i]
  }

  lemma CodesOfBlanks(c: char)
    ensures c in BLANKS <==>
      c == '\t' || c == '\n' || c == '\U{B}' || c == '\U{C}' || c == '\r' || c == ' ' || c == '\U{A0}'
      || c == '\U{1680}' || '\U{2000}' <= c <= '\U{200A}' || c == '\U{2028}' || c == '\U{2029}'
      || c == '\U{202F}' || c == '\U{205F}' || c == '\U{3000}' || c == '\U{FEFF}'
  {
    assert BLANKS[8] == '\U{2000}' && BLANKS[9] == '\U{2001}' && BLANKS[10] == '\U{2002}';
    assert BLANKS[11] == '\U{2003}' && BLANKS[12] == '\U{2004}' && BLANKS[13] == '\U{2005}';
    assert BLANKS[14] == '\U{2006}' && BLANKS[15] == '\U{2007}' && BLANKS[16] == '\U{2008}';
    assert BLANKS[17] == '\U{2009}' && BLANKS[18] == '\U{200A}';
  }

  /** The model's character classes are those of the expressions. */
  lemma CharacterClasses(c: char)
    ensures IsSpace(c) <==> c in BLANKS
    ensures IsBoundary(c) <==> OpensPath(c)
    ensures IsName(Users, c) <==> !EndsName(c)
    ensures IsName(Home, c) <==> !EndsName(c)
    ensures IsName(Drive, c) <==> !EndsName(c) && c != '\\'
    ensures IsSlash(c) <==> c in "/\\"
    ensures IsLetter(c) <==> IsAz(c)
    ensures IsSchemeChar(c) <==> InScheme(c)
  {
    CodesOfBlanks(c);
  }

  // ----- the patterns -------------------------------------------------------------------

  /** `[A-Za-z]:[\\/]+Users[\\/]+[^\\/\s"']+` at the start of s, n characters long: its parts end at i, i + 5, k, n. */
  predicate DriveAt(s: string, i: nat, k: nat, n: nat) {
    && 2 < i && i + 5 < k < n <= |s|
    && IsAz(s[0]) && s[1] == ':'
    && (forall x :: 2 <= x < i ==> s[x] in "/\\")
    && Spells(s[i..i + 5], "users", "USERS")
    && (forall x :: i + 5 <= x < k ==> s[x] in "/\\")
    && (forall x :: k <= x < n ==> !EndsName(s[x]) && s[x] != '\\')
    && (n < |s| ==> EndsName(s[n]) || s[n] == '\\')
  }

  /** `/Users/[^/\s"']+` or `/home/[^/\s"']+` at the start of s, n characters long. */
  predicate PosixAt(s: string, small: string, capital: string, n: nat)
    requires |small| == |capital|
  {
    && |small| < n <= |s|
    && Spells(s[..|small|], small, capital)
    && (forall x :: |small| <= x < n ==> !EndsName(s[x]))
    && (n < |s| ==> EndsName(s[n]))
  }

  lemma {:induction false} SlashRunIs(s: string, n: nat)
    requires n <= |s| && (forall x :: 0 <= x < n ==> IsSlash(s[x])) && (n < |s| ==> !IsSlash(s[n]))
    ensures SlashRun(s) == n
  {
    if n > 0 {
      SlashRunIs(s[1..], n - 1);
    }
  }

  lemma {:induction false} NameRunIs(p: Pattern, s: string, n: nat)
    requires n <= |s| && (forall x :: 0 <= x < n ==> IsName(p, s[x])) && (n < |s| ==> !IsName(p, s[n]))
    ensures NameRun(p, s) == n
  {
    if n > 0 {
      NameRunIs(p, s[1..], n - 1);
    }
  }

  lemma {:induction false} NameRunEnds(p: Pattern, s: string)
    ensures forall x :: 0 <= x < NameRun(p, s) ==> IsName(p, s[x])
    ensures NameRun(p, s) < |s| ==> !IsName(p, s[NameRun(p, s)])
  {
    if s != [] && IsName(p, s[0]) {
      NameRunEnds(p, s[1..]);
      forall x | 0 <= x < NameRun(p, s)
        ensures IsName(p, s[x])
      {
        assert x > 0 ==> s[x] == s[1..][x - 1];
      }
    }
  }

  lemma StartsWithSpells(s: string, small: string, capital: string)
    requires |small| == |capital|
    requires forall i :: 0 <= i < |small| ==>
      LowerChar(small[i]) == small[i] && (if 'a' <= small[i] <= 'z' then capital[i] as int == small[i] as int - 32
                                          else capital[i] == small[i])
    ensures StartsWith(s, small) <==> |small| <= |s| && Spells(s[..|small|], small, capital)
  {
    if |small| <= |s| {
      var w := s[..|small|];
      forall i | 0 <= i < |w|
        ensures Lower(w)[i] == small[i] <==> w[i] == small[i] || w[i] == capital[i]
      {
        LowerLetter(w[i], small[i], capital[i]);
      }
    }
  }

  lemma LowerLetter(c: char, small: char, capital: char)
    requires LowerChar(small) == small
    requires if 'a' <= small <= 'z' then capital as int == small as int - 32 else capital == small
    ensures LowerChar(c) == small <==> c == small || c == capital
  {
  }

  /** The drive scanner finds exactly what the expression matches, and all of it. */
  lemma DriveIsRegex(s: string, n: nat)
    ensures MatchLen(Drive, s) == n > 0 <==> exists i: nat, k: nat :: DriveAt(s, i, k, n)
  {
    hide StartsWith, NameRun, DriveHead;
    if MatchLen(Drive, s) == n && n > 0 {
      DriveMatchesRegex(s);
    }
    if i: nat, k: nat :| DriveAt(s, i, k, n) {
      RegexMatchesDrive(s, i, k, n);
    }
  }

  lemma SlashRunAt(s: string, a: nat)
    requires a <= |s|
    ensures forall x :: a <= x < a + SlashRun(s[a..]) ==> s[x] in "/\\"
  {
    hide IsSlash;
    SlashRunIsSlashes(s[a..]);
    forall x | a <= x < a + SlashRun(s[a..])
      ensures s[x] in "/\\"
    {
      assert s[a..][x - a] == s[x];
      CharacterClasses(s[x]);
    }
  }

  lemma NameRunAt(s: string, k: nat)
    requires k <= |s|
    ensures var n := k + NameRun(Drive, s[k..]);
      && (forall x :: k <= x < n ==> !EndsName(s[x]) && s[x] != '\\')
      && (n < |s| ==> EndsName(s[n]) || s[n] == '\\')
  {
    hide IsName, EndsName;
    var n := k + NameRun(Drive, s[k..]);
    NameRunEnds(Drive, s[k..]);
    forall x | k <= x <= n && x < |s|
      ensures x < n <==> !EndsName(s[x]) && s[x] != '\\'
    {
      assert s[k..][x - k] == s[x];
      CharacterClasses(s[x]);
    }
  }

  lemma DriveMatchesRegex(s: string)
    requires MatchLen(Drive, s) > 0
    ensures DriveAt(s, 2 + SlashRun(s[2..]), DriveHead(s), MatchLen(Drive, s))
  {
    hide StartsWith, EndsName, SlashRun, DriveHead, IsName, IsLetter, IsAz, Spells, NameRun;
    DriveParts(s);
    var i, k := 2 + SlashRun(s[2..]), DriveHead(s);
    SlashRunAt(s, 2);
    SlashRunAt(s, i + 5);
    NameRunAt(s, k);
    StartsWithSpells(s[i..], "users", "USERS");
    assert s[i..][..5] == s[i..i + 5];
    CharacterClasses(s[0]);
    NameIsSome(Drive, s[k..]);
  }

  lemma NameIsSome(p: Pattern, s: string)
    requires s != [] && IsName(p, s[0])
    ensures NameRun(p, s) > 0
  {
  }

  lemma EndsAtSlash()
    ensures EndsName('/')
  {
  }

  lemma RegexMatchesDrive(s: string, i: nat, k: nat, n: nat)
    requires DriveAt(s, i, k, n)
    ensures MatchLen(Drive, s) == n
  {
    hide StartsWith, IsName, IsSlash, IsLetter, EndsName, IsAz;
    forall x | 0 <= x < |s|
      ensures IsName(Drive, s[x]) <==> !EndsName(s[x]) && s[x] != '\\'
      ensures (IsSlash(s[x]) <==> s[x] in "/\\") && (IsLetter(s[x]) <==> IsAz(s[x]))
    {
      CharacterClasses(s[x]);
    }
    assert s[i] == s[i..i + 5][0] && s[i] != '/' && s[i] != '\\';
    SlashRunIs(s[2..], i - 2);
    assert s[i..][..5] == s[i..i + 5];
    StartsWithSpells(s[i..], "users", "USERS");
    assert !EndsName(s[k]) ==> s[k] != '/' by { EndsAtSlash(); }
    SlashRunIs(s[i + 5..], k - i - 5);
    DrivePartsGive(s, i, k);
    NameRunIs(Drive, s[k..], n - k);
  }

  lemma PosixIsPart(p: Pattern, s: string, small: string, capital: string, n: nat)
    requires p != Drive && WordOf(p) == small && |small| == |capital| && n > 0
    requires StartsWith(s, small) <==> |small| <= |s| && Spells(s[..|small|], small, capital)
    ensures MatchLen(p, s) == n <==> PosixAt(s, small, capital, n)
  {
    hide StartsWith, IsName, EndsName, Spells;
    var w := |small|;
    forall x | 0 <= x < |s|
      ensures IsName(p, s[x]) <==> !EndsName(s[x])
    {
      CharacterClasses(s[x]);
    }
    if MatchLen(p, s) == n {
      NameRunEnds(p, s[w..]);
      forall x | w <= x <= n && x < |s|
        ensures x < n <==> !EndsName(s[x])
      {
        assert s[x] == s[w..][x - w];
      }
    }
    if PosixAt(s, small, capital, n) {
      NameRunIs(p, s[w..], n - w);
    }
  }

  /** The other two scanners find exactly what their expressions match. */
  lemma PosixIsRegex(s: string, n: nat)
    ensures MatchLen(Users, s) == n > 0 <==> PosixAt(s, "/users/", "/USERS/", n)
    ensures MatchLen(Home, s) == n > 0 <==> PosixAt(s, "/home/", "/HOME/", n)
  {
    StartsWithSpells(s, "/users/", "/USERS/");
    StartsWithSpells(s, "/home/", "/HOME/");
    if n > 0 {
      PosixIsPart(Users, s, "/users/", "/USERS/", n);
      PosixIsPart(Home, s, "/home/", "/HOME/", n);
    }
  }

  // ----- the context rules --------------------------------------------------------------

  /** `[a-z][a-z0-9+.-]*:\/\/[^\s]*$`: a scheme from i, its separator at j, and no white space after it. */
  predicate UrlEnds(pre: string, i: nat, j: nat) {
    && i < j && j + 3 <= |pre| && IsAz(pre[i])
    && (forall x :: i < x < j ==> InScheme(pre[x]))
    && pre[j..j + 3] == "://"
    && forall x :: j + 3 <= x < |pre| ==> pre[x] !in BLANKS
  }

  lemma {:induction false} SchemeIsRegex(t: string)
    ensures EndsWithScheme(t) <==>
      exists i: nat :: i < |t| && IsAz(t[i]) && forall x :: i < x < |t| ==> InScheme(t[x])
  {
    hide IsLetter, IsSchemeChar, IsAz, InScheme;
    if t != [] {
      var n := |t| - 1;
      CharacterClasses(t[n]);
      SchemeIsRegex(t[..n]);
      if EndsWithScheme(t) && !IsLetter(t[n]) {
        var i: nat :| i < n && IsAz(t[..n][i]) && forall x :: i < x < n ==> InScheme(t[..n][x]);
        assert IsAz(t[i]) && forall x :: i < x < |t| ==> InScheme(if x < n then t[..n][x] else t[x]);
      }
      if i: nat :| i < |t| && IsAz(t[i]) && forall x :: i < x < |t| ==> InScheme(t[x]) {
        if i < n {
          assert IsAz(t[..n][i]) && InScheme(t[n]) && forall x :: i < x < n ==> InScheme(t[..n][x]);
        }
      }
    }
  }

  /** A match is spared as part of a URL exactly when the text before it ends as the expression says. */
  lemma {:induction false} UrlIsRegex(pre: string)
    ensures UrlContext(pre) <==> exists i: nat, j: nat :: UrlEnds(pre, i, j)
  {
    hide EndsWithScheme, IsSpace, UrlEnds;
    var n := |pre|;
    if n >= 3 {
      var last := pre[..n - 1];
      CharacterClasses(pre[n - 1]);
      UrlIsRegex(last);
      UrlEndsHere(pre);
      if !IsSpace(pre[n - 1]) && UrlContext(last) {
        var i: nat, j: nat :| UrlEnds(last, i, j);
        UrlFits(last, i, j);
        UrlExtends(pre, i, j);
      }
      if i: nat, j: nat :| UrlEnds(pre, i, j) {
        UrlFits(pre, i, j);
        if j + 3 < n {
          UrlExtends(pre, i, j);
        }
      }
    } else if i: nat, j: nat :| UrlEnds(pre, i, j) {
      UrlFits(pre, i, j);
    }
  }

  lemma UrlFits(pre: string, i: nat, j: nat)
    requires UrlEnds(pre, i, j)
    ensures i < j && j + 3 <= |pre|
  {
  }

  /** A text that ends right after a separator. */
  lemma UrlEndsHere(pre: string)
    requires |pre| >= 3
    ensures var j := |pre| - 3;
      pre[j..] == "://" && EndsWithScheme(pre[..j]) <==> exists i: nat :: UrlEnds(pre, i, j)
  {
    hide EndsWithScheme, IsAz, InScheme;
    var j := |pre| - 3;
    var t := pre[..j];
    SchemeIsRegex(t);
    assert pre[j..j + 3] == pre[j..];
    assert forall x :: 0 <= x < j ==> t[x] == pre[x];
    if pre[j..] == "://" && EndsWithScheme(t) {
      var i: nat :| i < |t| && IsAz(t[i]) && forall x :: i < x < |t| ==> InScheme(t[x]);
      assert UrlEnds(pre, i, j);
    }
  }

  lemma UrlExtends(pre: string, i: nat, j: nat)
    requires pre != [] && j + 3 < |pre|
    ensures UrlEnds(pre, i, j) <==> UrlEnds(pre[..|pre| - 1], i, j) && pre[|pre| - 1] !in BLANKS
  {
    hide IsAz, InScheme;
    var last := pre[..|pre| - 1];
    assert last[j..j + 3] == pre[j..j + 3];
    assert forall x :: 0 <= x < |last| ==> last[x] == pre[x];
  }

  /** A match is replaced at the start of the text or right after one of the characters written out above. */
  lemma BoundaryIsRegex(pre: string)
    ensures AtBoundary(pre) <==> pre == [] || OpensPath(pre[|pre| - 1])
  {
    if pre != [] {
      CharacterClasses(pre[|pre| - 1]);
    }
  }
}
