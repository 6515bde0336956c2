/**
 Masking works word by word: no match and no URL context crosses white space. So a URL in
 running text is treated exactly as if it stood alone, where it is left as it is.
 */
module PathMaskWords {
  import opened Sequences
  import opened PathMask
  import opened PathMaskScan

  // ----- matches end at white space -----------------------------------------------------

  lemma PrefixOf(u: string, sp: char, v: string, k: nat)
    requires k <= |u|
    ensures (u + [sp] + v)[k..] == u[k..] + [sp] + v
    ensures (u + [sp] + v)[..k] == u[..k]
  {
  }

  lemma {:induction false} SlashRunWord(u: string, sp: char, v: string)
    requires IsSpace(sp)
    ensures SlashRun(u + [sp] + v) == SlashRun(u)
  {
    if u != [] {
      PrefixOf(u, sp, v, 1);
      SlashRunWord(u[1..], sp, v);
    }
  }

  lemma {:induction false} NameRunWord(p: Pattern, u: string, sp: char, v: string)
    requires IsSpace(sp)
    ensures NameRun(p, u + [sp] + v) == NameRun(p, u)
  {
    if u != [] {
      PrefixOf(u, sp, v, 1);
      NameRunWord(p, u[1..], sp, v);
    }
  }

  predicate NoSpace(s: string) { forall c :: c in s ==> !IsSpace(c) }

  lemma StartsWithWord(u: string, sp: char, v: string, word: string)
    requires IsSpace(sp) && NoSpace(word)
    ensures StartsWith(u + [sp] + v, word) <==> StartsWith(u, word)
  {
    var t := u + [sp] + v;
    if |word| <= |u| {
      PrefixOf(u, sp, v, |word|);
    } else if |word| <= |t| {
      assert t[..|word|][|u|] == sp;
      assert Lower(t[..|word|])[|u|] == LowerChar(sp) == sp;
      assert word[|u|] in word;
    }
  }

  lemma WordsHaveNoSpace(p: Pattern)
    ensures NoSpace(WordOf(p)) && NoSpace("users")
  {
  }

  lemma DrivePartsWord(u: string, sp: char, v: string)
    requires IsSpace(sp) && |u| >= 2
    ensures var t, a := u + [sp] + v, 2 + SlashRun(u[2..]);
      && SlashRun(t[2..]) == SlashRun(u[2..])
      && (StartsWith(t[a..], "users") <==> StartsWith(u[a..], "users"))
      && (StartsWith(u[a..], "users") ==> SlashRun(t[a + 5..]) == SlashRun(u[a + 5..]))
  {
    var t, a := u + [sp] + v, 2 + SlashRun(u[2..]);
    PrefixOf(u, sp, v, 2);
    SlashRunWord(u[2..], sp, v);
    PrefixOf(u, sp, v, a);
    WordsHaveNoSpace(Drive);
    StartsWithWord(u[a..], sp, v, "users");
    if StartsWith(u[a..], "users") {
      PrefixOf(u, sp, v, a + 5);
      SlashRunWord(u[a + 5..], sp, v);
    }
  }

  lemma DriveHeadWord(u: string, sp: char, v: string)
    requires IsSpace(sp) && u != []
    ensures DriveHead(u + [sp] + v) == DriveHead(u)
  {
    var t := u + [sp] + v;
    assert t[0] == u[0] && (|u| == 1 ==> t[1] == sp);
    if |u| >= 2 {
      assert t[1] == u[1];
      DrivePartsWord(u, sp, v);
      var a := 2 + SlashRun(u[2..]);
      if StartsWith(u[a..], "users") {
        var b := a + 5 + SlashRun(u[a + 5..]);
        assert t[b] == if b < |u| then u[b] else sp;
      }
    }
  }

  lemma MatchLenWord(p: Pattern, u: string, sp: char, v: string)
    requires IsSpace(sp) && u != []
    ensures MatchLen(p, u + [sp] + v) == MatchLen(p, u)
  {
    if p == Drive {
      DriveHeadWord(u, sp, v);
    } else {
      WordsHaveNoSpace(p);
      StartsWithWord(u, sp, v, WordOf(p));
    }
    var h := Head(p, u);
    assert Head(p, u + [sp] + v) == h;
    if h > 0 {
      PrefixOf(u, sp, v, h);
      NameRunWord(p, u[h..], sp, v);
    }
  }

  lemma NoMatchAtSpace(p: Pattern, sp: char, v: string)
    requires IsSpace(sp)
    ensures MatchLen(p, [sp] + v) == 0
  {
    var t := [sp] + v;
    if p != Drive && |WordOf(p)| <= |t| {
      assert Lower(t[..|WordOf(p)|])[0] == LowerChar(sp);
    }
  }

  // ----- contexts start afresh after white space ----------------------------------------

  lemma {:induction false} SchemeAfterSpace(x: string, sp: char, w: string)
    requires IsSpace(sp)
    ensures EndsWithScheme(x + [sp] + w) <==> EndsWithScheme(w)
  {
    if w != [] {
      var t := x + [sp] + w;
      assert t[..|t| - 1] == x + [sp] + w[..|w| - 1];
      SchemeAfterSpace(x, sp, w[..|w| - 1]);
    }
  }

  /** The step of `UrlContext` at the end of a text that has something after the white space. */
  lemma SeparatorAfterSpace(x: string, sp: char, w: string)
    requires IsSpace(sp) && w != []
    ensures var t := x + [sp] + w;
      |t| >= 3 && t[|t| - 3..] == "://" && EndsWithScheme(t[..|t| - 3])
      <==> |w| >= 3 && w[|w| - 3..] == "://" && EndsWithScheme(w[..|w| - 3])
  {
    var t := x + [sp] + w;
    if |w| >= 3 {
      assert t[|t| - 3..] == w[|w| - 3..];
      assert t[..|t| - 3] == x + [sp] + w[..|w| - 3];
      SchemeAfterSpace(x, sp, w[..|w| - 3]);
    } else if |t| >= 3 {
      assert t[|t| - 3..][2 - |w|] == sp;
    }
  }

  lemma NoUrlAtSpace(x: string, sp: char)
    requires IsSpace(sp)
    ensures !UrlContext(x + [sp])
  {
    var t := x + [sp];
    if |t| >= 3 {
      assert t[|t| - 3..][2] == sp;
    }
  }

  lemma {:induction false} UrlAfterSpace(x: string, sp: char, w: string)
    requires IsSpace(sp)
    ensures UrlContext(x + [sp] + w) <==> UrlContext(w)
  {
    var t := x + [sp] + w;
    if w == [] {
      assert t == x + [sp];
      NoUrlAtSpace(x, sp);
    } else {
      assert t[..|t| - 1] == x + [sp] + w[..|w| - 1];
      UrlAfterSpace(x, sp, w[..|w| - 1]);
      SeparatorAfterSpace(x, sp, w);
      if |w| < 3 {
        ShortIsNoUrl(w[..|w| - 1]);
      }
      if |t| < 3 {
        ShortIsNoUrl(w);
      }
    }
  }

  lemma ShortIsNoUrl(w: string)
    requires |w| < 3
    ensures !UrlContext(w)
  {
  }

  lemma UnguardedAfterSpace(x: string, sp: char, w: string)
    requires IsSpace(sp)
    ensures Unguarded(x + [sp] + w) <==> Unguarded(w)
  {
    UrlAfterSpace(x, sp, w);
    var t := x + [sp] + w;
    assert w != [] ==> t[|t| - 1] == w[|w| - 1];
    assert w == [] ==> t[|t| - 1] == sp;
  }

  // ----- scanning by words, for any matcher and guard -----------------------------------

  /** Matches neither start at nor reach across this character, and the guard forgets what precedes it. */
  ghost predicate StopsAt(m: string -> nat, g: string -> bool, sp: char) {
    && (forall u: string, v: string :: u != [] ==> m(u + [sp] + v) == m(u))
    && (forall v: string :: m([sp] + v) == 0)
    && (forall x: string, w: string :: g(x + [sp] + w) == g(w))
    && (forall u: string :: m(u) <= |u|)
  }

  lemma PatternsStopAtSpace(p: Pattern, sp: char)
    requires IsSpace(sp)
    ensures StopsAt(Matcher(p), Unguarded, sp)
  {
    forall u: string, v: string | u != []
      ensures Matcher(p)(u + [sp] + v) == Matcher(p)(u)
    {
      MatchLenWord(p, u, sp, v);
    }
    forall v: string
      ensures Matcher(p)([sp] + v) == 0
    {
      NoMatchAtSpace(p, sp, v);
    }
    forall x: string, w: string
      ensures Unguarded(x + [sp] + w) == Unguarded(w)
    {
      UnguardedAfterSpace(x, sp, w);
    }
  }

  lemma {:induction false} ScanAfterSpace(m: string -> nat, g: string -> bool, x: string, sp: char,
                                          w: string, s: string)
    requires StopsAt(m, g, sp)
    ensures Scan(m, g, x + [sp] + w, s) == Scan(m, g, w, s)
    decreases |s|
  {
    if s != [] {
      var e := if m(s) == 0 then [s[0]] else s[..m(s)];
      var k := if m(s) == 0 then 1 else m(s);
      assert g(x + [sp] + w) == g(w);
      assert x + [sp] + w + e == x + [sp] + (w + e);
      ScanAfterSpace(m, g, x, sp, w + e, s[k..]);
    }
  }

  lemma Reassociate(a: string, b: string, sp: char, c: string)
    ensures a + (b + [sp] + c) == a + b + [sp] + c
  {
  }

  /** A scan treats the text before and after such a character separately. */
  lemma {:induction false} ScanByWords(m: string -> nat, g: string -> bool, pre: string, u: string, sp: char, v: string)
    requires StopsAt(m, g, sp)
    ensures Scan(m, g, pre, u + [sp] + v) == Scan(m, g, pre, u) + [sp] + Scan(m, g, [], v)
    decreases |u|
  {
    var t := u + [sp] + v;
    if u == [] {
      assert t == [sp] + v && t[1..] == v;
      assert pre + [sp] + [] == pre + [sp];
      ScanAfterSpace(m, g, pre, sp, [], v);
    } else {
      assert m(t) == m(u) <= |u|;
      var k := if m(u) == 0 then 1 else m(u);
      var e := if m(u) == 0 then [u[0]] else u[..m(u)];
      var out := if m(u) > 0 && g(pre) then "~" else e;
      PrefixOf(u, sp, v, k);
      ScanByWords(m, g, pre + e, u[k..], sp, v);
      assert t[0] == u[0];
      assert Scan(m, g, pre, t) == out + Scan(m, g, pre + e, u[k..] + [sp] + v);
      assert Scan(m, g, pre, u) == out + Scan(m, g, pre + e, u[k..]);
      Reassociate(out, Scan(m, g, pre + e, u[k..]), sp, Scan(m, g, [], v));
    }
  }

  lemma {:induction false} TildesByWords(u: string, sp: char, v: string)
    requires IsSpace(sp)
    ensures Tildes(u + [sp] + v) == Tildes(u) + [sp] + Tildes(v)
  {
    var t := u + [sp] + v;
    if u == [] {
      assert t == [sp] + v && t[1..] == v;
    } else {
      var tail := u[1..];
      PrefixOf(u, sp, v, 1);
      TildesByWords(tail, sp, v);
      assert t[0] == u[0] && |t| > 1 && t[1] == if |u| > 1 then u[1] else sp;
      var head := if u[0] == '~' && |u| > 1 && u[1] != '/' && !IsSpace(u[1]) then "~/" else [u[0]];
      assert Tildes(u) == head + Tildes(tail);
      assert Tildes(t) == head + Tildes(tail + [sp] + v);
      Reassociate(head, Tildes(tail), sp, Tildes(v));
    }
  }

  lemma {:induction false} DropSlashesWord(u: string, sp: char, v: string)
    requires IsSpace(sp)
    ensures DropSlashes(u + [sp] + v) == DropSlashes(u) + [sp] + v
  {
    if u != [] {
      PrefixOf(u, sp, v, 1);
      DropSlashesWord(u[1..], sp, v);
    }
  }

  lemma {:induction false} CollapseByWords(u: string, sp: char, v: string)
    requires IsSpace(sp)
    ensures Collapse(u + [sp] + v) == Collapse(u) + [sp] + Collapse(v)
    decreases |u|
  {
    var t := u + [sp] + v;
    if u == [] {
      assert t == [sp] + v && t[1..] == v;
    } else {
      var tail := u[1..];
      PrefixOf(u, sp, v, 1);
      assert t[0] == u[0];
      if u[0] == '~' && |u| > 1 && u[1] == '/' {
        DropSlashesWord(tail, sp, v);
        CollapseByWords(DropSlashes(tail), sp, v);
        assert t[1] == '/';
        Reassociate("~/", Collapse(DropSlashes(tail)), sp, Collapse(v));
      } else {
        CollapseByWords(tail, sp, v);
        assert |t| > 1 && t[1] == if |u| > 1 then u[1] else sp;
        Reassociate([u[0]], Collapse(tail), sp, Collapse(v));
      }
    }
  }

  /** The rewrite proper splits at every white-space character. */
  lemma BodyByWords(u: string, sp: char, v: string)
    requires IsSpace(sp)
    ensures Body(u + [sp] + v) == Body(u) + [sp] + Body(v)
  {
    hide Pass, Normalised;
    var u1, v1 := Pass(Drive, u), Pass(Drive, v);
    PassByWords(Drive, u, sp, v);
    PassByWords(Users, u1, sp, v1);
    PassByWords(Home, Pass(Users, u1), sp, Pass(Users, v1));
    NormaliseByWords(Pass(Home, Pass(Users, u1)), sp, Pass(Home, Pass(Users, v1)));
  }

  lemma PassByWords(p: Pattern, u: string, sp: char, v: string)
    requires IsSpace(sp)
    ensures Pass(p, u + [sp] + v) == Pass(p, u) + [sp] + Pass(p, v)
  {
    PatternsStopAtSpace(p, sp);
    ScanByWords(Matcher(p), Unguarded, [], u, sp, v);
  }

  lemma NormaliseByWords(u: string, sp: char, v: string)
    requires IsSpace(sp)
    ensures Normalised(u + [sp] + v) == Normalised(u) + [sp] + Normalised(v)
  {
    assert Slashes(u + [sp] + v) == Slashes(u) + [sp] + Slashes(v);
    TildesByWords(Slashes(u), sp, Slashes(v));
    CollapseByWords(Tildes(Slashes(u)), sp, Tildes(Slashes(v)));
  }

  lemma StartOfWords(u: string, sp: char, v: string)
    requires IsSpace(sp)
    ensures "~/" <= u + [sp] + v <==> "~/" <= u
  {
    assert (u + [sp] + v)[|u|] == sp;
    assert |u| >= 2 ==> (u + [sp] + v)[..2] == u[..2];
  }

  lemma SlashesByWords(u: string, sp: char, v: string)
    requires IsSpace(sp)
    ensures Slashes(u + [sp] + v) == Slashes(u) + [sp] + Slashes(v)
  {
  }

  lemma MaskedIsBody(u: string)
    ensures Masked(u) == if "~/" <= u then Slashes(u) else Body(u)
  {
    hide Body;
    BodyOfShort();
    assert u == "~" ==> Slashes(u) == u;
  }

  /** What masking makes of a text with white space in it, from the texts before and after. */
  lemma MaskByWords(u: string, sp: char, v: string)
    requires IsSpace(sp)
    ensures Masked(u + [sp] + v) == Masked(u) + [sp] + (if "~/" <= u then Slashes(v) else Body(v))
  {
    hide Body, Masked, Slashes;
    StartOfWords(u, sp, v);
    MaskedIsBody(u);
    MaskedIsBody(u + [sp] + v);
    if "~/" <= u {
      SlashesByWords(u, sp, v);
    } else {
      BodyByWords(u, sp, v);
    }
  }

  /**
   Masking splits at white space if and only if both parts count as masked already, or neither
   does, or the rewrite would leave the second part alone but for its slashes.
   */
  lemma MaskingSplits(u: string, sp: char, v: string)
    requires IsSpace(sp)
    ensures Masked(u + [sp] + v) == Masked(u) + [sp] + Masked(v)
       <==> (("~/" <= u <==> "~/" <= v) || Body(v) == Slashes(v))
  {
    hide Body, Masked, Slashes;
    MaskByWords(u, sp, v);
    MaskedIsBody(v);
    var head := Masked(u) + [sp];
    if head + Masked(v) == head + Body(v) {
      assert Masked(v) == (head + Masked(v))[|head|..] == (head + Body(v))[|head|..] == Body(v);
    }
    if head + Masked(v) == head + Slashes(v) {
      assert Masked(v) == (head + Masked(v))[|head|..] == (head + Slashes(v))[|head|..] == Slashes(v);
    }
  }

  // ----- URLs ---------------------------------------------------------------------------

  predicate Replaces(p: Pattern, pre: string, s: string) {
    MatchLen(p, s) > 0 && Unguarded(pre)
  }

  lemma {:induction false} NothingReplacedIsQuiet(p: Pattern, t: string, i: nat)
    requires i <= |t| && forall j :: 0 <= j < |t| ==> !Replaces(p, t[..j], t[j..])
    ensures Quiet(Matcher(p), Unguarded, t, i)
    decreases |t| - i
  {
    hide MatchLen, Unguarded;
    if i < |t| {
      assert !Replaces(p, t[..i], t[i..]);
      NothingReplacedIsQuiet(p, t, i + StepLen(Matcher(p), t[i..]));
    }
  }

  lemma UnchangedByPass(p: Pattern, t: string)
    requires forall j :: 0 <= j < |t| ==> !Replaces(p, t[..j], t[j..])
    ensures Pass(p, t) == t
  {
    hide Replaces, Quiet;
    NothingReplacedIsQuiet(p, t, 0);
    SettledPass(p, t);
  }

  predicate IsScheme(t: string) {
    t != [] && IsLetter(t[0]) && forall c :: c in t ==> IsSchemeChar(c)
  }

  lemma {:induction false} SchemeEnds(t: string)
    requires IsScheme(t)
    ensures EndsWithScheme(t)
  {
    if |t| > 1 {
      assert forall c :: c in t[..|t| - 1] ==> c in t;
      assert t[|t| - 1] in t;
      SchemeEnds(t[..|t| - 1]);
    }
  }

  lemma UrlGoesOnBy(pre: string, c: char)
    requires UrlContext(pre) && !IsSpace(c)
    ensures UrlContext(pre + [c])
  {
    assert (pre + [c])[..|pre|] == pre;
  }

  lemma UrlStarts(scheme: string)
    requires IsScheme(scheme)
    ensures UrlContext(scheme + "://")
  {
    var t := scheme + "://";
    assert t[|t| - 3..] == "://" && t[..|t| - 3] == scheme;
    SchemeEnds(scheme);
  }

  lemma {:induction false} UrlGoesOn(scheme: string, rest: string)
    requires IsScheme(scheme) && NoSpace(rest)
    ensures UrlContext(scheme + "://" + rest)
  {
    if rest == [] {
      assert scheme + "://" + rest == scheme + "://";
      UrlStarts(scheme);
    } else {
      var init, c := rest[..|rest| - 1], rest[|rest| - 1];
      assert rest == init + [c];
      UrlGoesOn(scheme, init);
      UrlGoesOnBy(scheme + "://" + init, c);
      assert scheme + "://" + rest == scheme + "://" + init + [c];
    }
  }

  lemma SchemeCharIsPlain(c: char)
    requires IsSchemeChar(c)
    ensures !IsBoundary(c) && c != '/' && c != ':'
  {
  }

  lemma WordStartsWithSlash(p: Pattern, s: string)
    ensures p != Drive && MatchLen(p, s) > 0 ==> |s| > 2 && s[0] == '/' && IsLetter(s[1])
  {
    var w := WordOf(p);
    if p != Drive && MatchLen(p, s) > 0 {
      assert Lower(s[..|w|])[0] == LowerChar(s[0]) == w[0];
      assert Lower(s[..|w|])[1] == LowerChar(s[1]) == w[1];
    }
  }

  lemma GuardedInUrl(scheme: string, rest: string, i: nat)
    requires IsScheme(scheme) && NoSpace(rest)
    requires |scheme| + 3 <= i <= |scheme + "://" + rest|
    ensures !Unguarded((scheme + "://" + rest)[..i])
  {
    var t := scheme + "://" + rest;
    var done := rest[..i - |scheme| - 3];
    assert t[..i] == scheme + "://" + done;
    assert forall c :: c in done ==> c in rest;
    UrlGoesOn(scheme, done);
  }

  lemma NoMatchAtSeparator(p: Pattern, s: string)
    requires |s| > 1 && !IsLetter(s[0]) && s[1] == '/'
    ensures MatchLen(p, s) == 0
  {
    WordStartsWithSlash(p, s);
  }

  lemma NoMatchInSeparator(p: Pattern, scheme: string, rest: string, i: nat)
    requires |scheme| <= i < |scheme| + 3
    ensures var t := scheme + "://" + rest; !Replaces(p, t[..i], t[i..])
  {
    var t := scheme + "://" + rest;
    var m := |scheme|;
    if i == m + 2 {
      var pre := t[..i];
      assert pre[i - 1] == t[m + 1] == '/';
      assert !AtBoundary(pre);
    } else {
      assert t[i..][0] == t[i] && t[i..][1] == t[i + 1] == '/';
      NoMatchAtSeparator(p, t[i..]);
    }
  }

  lemma NoMatchInScheme(p: Pattern, scheme: string, rest: string, i: nat)
    requires IsScheme(scheme) && i < |scheme|
    requires i > 0 || p != Drive || |scheme| > 1
    ensures var t := scheme + "://" + rest; !Replaces(p, t[..i], t[i..])
  {
    var t := scheme + "://" + rest;
    var s := t[i..];
    assert s[0] == scheme[i] && scheme[i] in scheme;
    SchemeCharIsPlain(scheme[i]);
    if i > 0 {
      assert t[..i][i - 1] == scheme[i - 1] && scheme[i - 1] in scheme;
      SchemeCharIsPlain(scheme[i - 1]);
    } else if p != Drive {
      WordStartsWithSlash(p, s);
    } else {
      assert s[1] == scheme[1] && scheme[1] in scheme;
      SchemeCharIsPlain(scheme[1]);
    }
  }

  /** Inside a URL no pattern replaces anything; only a one-letter scheme can be taken for a drive. */
  lemma UrlNotReplaced(p: Pattern, scheme: string, rest: string, i: nat)
    requires IsScheme(scheme) && NoSpace(rest) && i < |scheme + "://" + rest|
    requires i > 0 || p != Drive || |scheme| > 1 || MatchLen(Drive, scheme + "://" + rest) == 0
    ensures var t := scheme + "://" + rest; !Replaces(p, t[..i], t[i..])
  {
    if i >= |scheme| + 3 {
      GuardedInUrl(scheme, rest, i);
    } else if i >= |scheme| {
      NoMatchInSeparator(p, scheme, rest, i);
    } else if i > 0 || p != Drive || |scheme| > 1 {
      NoMatchInScheme(p, scheme, rest, i);
    } else {
      assert (scheme + "://" + rest)[0..] == scheme + "://" + rest;
    }
  }

  lemma {:induction false} SettledTextStays(s: string)
    requires forall c :: c in s ==> c != '~' && c != '\\'
    ensures Slashes(s) == s && Tildes(s) == s && Collapse(s) == s
    decreases |s|
  {
    if s != [] {
      assert s == [s[0]] + s[1..];
      assert s[0] in s;
      assert forall c :: c in s[1..] ==> c in s;
      SettledTextStays(s[1..]);
    }
  }

  lemma TildeStaysFirst(p: Pattern, s: string)
    requires s != [] && s[0] == '~'
    ensures Pass(p, s) != [] && Pass(p, s)[0] == '~'
  {
    WordStartsWithSlash(p, s);
    assert Matcher(p)(s) == 0;
  }

  /**
   A URL without white space, backslash or tilde is left exactly as it is, unless its scheme is
   a single letter and the whole reads as a drive path to a user's home.
   */
  lemma UrlIsKept(scheme: string, rest: string)
    requires IsScheme(scheme) && NoSpace(rest) && '~' !in rest && '\\' !in rest
    ensures Masked(scheme + "://" + rest) == scheme + "://" + rest
       <==> (|scheme| > 1 || MatchLen(Drive, scheme + "://" + rest) == 0)
  {
    hide Body, MatchLen;
    var t := scheme + "://" + rest;
    SchemeIsNoTilde(scheme, rest);
    MaskedIsBody(t);
    if |scheme| > 1 || MatchLen(Drive, t) == 0 {
      UrlBodyIsKept(scheme, rest);
    } else {
      DriveUrlBecomesTilde(t);
    }
  }

  lemma SchemeIsNoTilde(scheme: string, rest: string)
    requires IsScheme(scheme)
    ensures (scheme + "://" + rest)[0] != '~'
  {
    assert (scheme + "://" + rest)[0] == scheme[0] && scheme[0] in scheme;
  }

  lemma UrlPassIsKept(p: Pattern, scheme: string, rest: string)
    requires IsScheme(scheme) && NoSpace(rest)
    requires |scheme| > 1 || MatchLen(Drive, scheme + "://" + rest) == 0
    ensures Pass(p, scheme + "://" + rest) == scheme + "://" + rest
  {
    hide Replaces, IsScheme, MatchLen, Pass;
    var t := scheme + "://" + rest;
    forall i | 0 <= i < |t|
      ensures !Replaces(p, t[..i], t[i..])
    {
      UrlNotReplaced(p, scheme, rest, i);
    }
    UnchangedByPass(p, t);
  }

  lemma UrlBodyIsKept(scheme: string, rest: string)
    requires IsScheme(scheme) && NoSpace(rest) && '~' !in rest && '\\' !in rest
    requires |scheme| > 1 || MatchLen(Drive, scheme + "://" + rest) == 0
    ensures Body(scheme + "://" + rest) == scheme + "://" + rest
  {
    hide Pass, Normalised;
    UrlPassIsKept(Drive, scheme, rest);
    UrlPassIsKept(Users, scheme, rest);
    UrlPassIsKept(Home, scheme, rest);
    UrlIsSettled(scheme, rest);
  }

  lemma UrlIsSettled(scheme: string, rest: string)
    requires IsScheme(scheme) && '~' !in rest && '\\' !in rest
    ensures Normalised(scheme + "://" + rest) == scheme + "://" + rest
  {
    var t := scheme + "://" + rest;
    forall c | c in t
      ensures c != '~' && c != '\\'
    {
      assert c in scheme || c in "://" || c in rest;
      assert c in scheme ==> IsSchemeChar(c);
    }
    SettledTextStays(t);
  }

  lemma DriveUrlBecomesTilde(t: string)
    requires MatchLen(Drive, t) > 0
    ensures Body(t) != [] && Body(t)[0] == '~'
  {
    var out1 := Pass(Drive, t);
    assert Matcher(Drive)(t) > 0 && Unguarded([]);
    assert out1[0] == '~';
    TildeStaysFirst(Users, out1);
    TildeStaysFirst(Home, Pass(Users, out1));
    NormalisedStartsWithTilde(Pass(Home, Pass(Users, out1)));
  }

  lemma NormalisedStartsWithTilde(s: string)
    requires s != [] && s[0] == '~'
    ensures Normalised(s) != [] && Normalised(s)[0] == '~'
  {
    assert Slashes(s)[0] == '~';
    assert Tildes(Slashes(s))[0] == '~';
  }
}
