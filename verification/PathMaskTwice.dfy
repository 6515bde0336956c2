/**
 Masking an already masked text: exactly when it changes nothing. A rewritten text is normalised,
 a pass that replaces a match loses letters, and nothing later brings a letter back.
 */
module PathMaskTwice {
  import opened Sequences
  import opened PathMask
  import opened PathMaskLeaks
  import opened PathMaskRoots
  import opened PathMaskScan

  // ----- normalised texts ---------------------------------------------------------------

  /** No backslash; every tilde is followed by white space, by one slash, or by nothing. */
  predicate IsNormal(s: string) {
    s == []
    || (s[0] != '\\' && IsNormal(s[1..])
        && (s[0] == '~' && |s| > 1 ==> IsSpace(s[1]) || (s[1] == '/' && (|s| > 2 ==> s[2] != '/'))))
  }

  lemma {:induction false} NormalStays(s: string)
    requires IsNormal(s)
    ensures NoBackslash(s) && Tildes(s) == s && Collapse(s) == s
    decreases |s|
  {
    if s != [] {
      NormalStays(s[1..]);
      assert s == [s[0]] + s[1..];
      if s[0] == '~' && |s| > 1 && s[1] == '/' {
        var u := s[1..];
        assert u[1..] == s[2..] && u == ['/'] + s[2..];
        assert |s| > 2 ==> s[2..][0] == s[2];
        assert DropSlashes(u) == s[2..];
        assert Collapse(u) == ['/'] + Collapse(u[1..]);
      }
    }
  }

  lemma NormalisedStays(s: string)
    requires IsNormal(s)
    ensures Normalised(s) == s
  {
    NormalStays(s);
    SlashesOfPlain(s);
  }

  /** Every tilde is followed by white space, by a slash, or by nothing. */
  predicate TildesDone(s: string) {
    s == [] || (TildesDone(s[1..]) && (s[0] == '~' && |s| > 1 ==> IsSpace(s[1]) || s[1] == '/'))
  }

  lemma TildesDoneCons(c: char, rest: string)
    requires TildesDone(rest) && (c == '~' && rest != [] ==> IsSpace(rest[0]) || rest[0] == '/')
    ensures TildesDone([c] + rest)
  {
    assert ([c] + rest)[1..] == rest;
  }

  lemma {:induction false} TildesAreDone(s: string)
    ensures TildesDone(Tildes(s))
    ensures s != [] ==> Tildes(s) != [] && Tildes(s)[0] == s[0]
  {
    hide TildesDone, IsSpace;
    if s == [] {
      NothingIsDone();
    } else {
      var rest := Tildes(s[1..]);
      TildesAreDone(s[1..]);
      if s[0] == '~' && |s| > 1 && s[1] != '/' && !IsSpace(s[1]) {
        assert "~/" + rest == ['~'] + (['/'] + rest);
        TildesDoneCons('/', rest);
        TildesDoneCons('~', ['/'] + rest);
      } else {
        TildesDoneCons(s[0], rest);
      }
    }
  }

  lemma NothingIsDone()
    ensures TildesDone([])
  {
  }

  lemma {:induction false} DroppedSlashes(s: string)
    requires TildesDone(s) && NoBackslash(s)
    ensures TildesDone(DropSlashes(s)) && NoBackslash(DropSlashes(s))
    ensures DropSlashes(s) != [] ==> DropSlashes(s)[0] != '/'
  {
    if s != [] && s[0] == '/' {
      assert forall c :: c in s[1..] ==> c in s;
      DroppedSlashes(s[1..]);
    }
  }

  lemma {:induction false} CollapseIsNormal(s: string)
    requires TildesDone(s) && NoBackslash(s)
    ensures IsNormal(Collapse(s))
    ensures s != [] ==> Collapse(s) != [] && Collapse(s)[0] == s[0]
    decreases |s|
  {
    if s != [] {
      assert s[0] in s && forall c :: c in s[1..] ==> c in s;
      if s[0] == '~' && |s| > 1 && s[1] == '/' {
        var rest := DropSlashes(s[1..]);
        DroppedSlashes(s[1..]);
        CollapseIsNormal(rest);
        NormalAfterTilde(Collapse(rest));
      } else {
        CollapseIsNormal(s[1..]);
        assert Collapse(s)[1..] == Collapse(s[1..]);
      }
    }
  }

  lemma NormalAfterTilde(rest: string)
    requires IsNormal(rest) && (rest != [] ==> rest[0] != '/')
    ensures IsNormal("~/" + rest)
  {
    var u := ['/'] + rest;
    assert "~/" + rest == ['~'] + u && u[1..] == rest && ("~/" + rest)[1..] == u;
  }

  lemma BodyIsNormal(raw: string)
    ensures IsNormal(Body(raw))
  {
    var out := Slashes(Passed(raw));
    SlashesHasNoBackslash(Passed(raw));
    TildesHasNoBackslash(out);
    TildesAreDone(out);
    CollapseIsNormal(Tildes(out));
  }

  // ----- letters are only ever lost to a tilde ------------------------------------------

  lemma {:induction false} LettersOfSlashes(s: string)
    ensures Letters(Slashes(s)) == Letters(s)
  {
    if s != [] {
      SlashesCons(s);
      LettersOfSlashes(s[1..]);
      assert Slashes(s)[1..] == Slashes(s[1..]);
    }
  }

  lemma {:induction false} LettersOfTildes(s: string)
    ensures Letters(Tildes(s)) == Letters(s)
  {
    if s != [] {
      LettersOfTildes(s[1..]);
      LettersAppend("~/", Tildes(s[1..]));
      LettersAppend([s[0]], Tildes(s[1..]));
      LettersAppend([s[0]], s[1..]);
      assert s == [s[0]] + s[1..];
      assert "~/"[1..] == "/" && Letters("/") == 0;
    }
  }

  lemma {:induction false} LettersOfDropSlashes(s: string)
    ensures Letters(DropSlashes(s)) == Letters(s)
  {
    if s != [] && s[0] == '/' {
      LettersOfDropSlashes(s[1..]);
    }
  }

  lemma {:induction false} LettersOfCollapse(s: string)
    ensures Letters(Collapse(s)) == Letters(s)
    decreases |s|
  {
    if s != [] {
      LettersAppend([s[0]], s[1..]);
      assert s == [s[0]] + s[1..];
      if s[0] == '~' && |s| > 1 && s[1] == '/' {
        var rest := DropSlashes(s[1..]);
        LettersOfDropSlashes(s[1..]);
        LettersOfCollapse(rest);
        LettersAppend("~/", Collapse(rest));
        assert "~/"[1..] == "/" && Letters("/") == 0;
      } else {
        LettersOfCollapse(s[1..]);
        LettersAppend([s[0]], Collapse(s[1..]));
      }
    }
  }

  lemma LettersOfNormalised(s: string)
    ensures Letters(Normalised(s)) == Letters(s)
  {
    LettersOfSlashes(s);
    LettersOfTildes(Slashes(s));
    LettersOfCollapse(Tildes(Slashes(s)));
  }

  lemma MatchHasLetter(p: Pattern, s: string)
    requires MatchLen(p, s) > 0
    ensures Letters(s[..MatchLen(p, s)]) > 0
  {
    var k := MatchLen(p, s);
    var j := if p == Drive then 0 else 1;
    if p != Drive {
      PosixHeadShape(p, s, 1);
      assert Lower(s[..Head(p, s)])[1] == LowerChar(s[1]) == WordOf(p)[1];
    }
    assert IsLetter(s[j]) && s[..k][j] == s[j];
    LettersOfSplit(s[..k], j);
    assert s[..k][j..][0] == s[j];
  }

  lemma PatternsHaveLetters(p: Pattern)
    ensures MatchesLetters(Matcher(p))
  {
    forall s | Matches(Matcher(p), s)
      ensures Letters(s[..Matcher(p)(s)]) > 0
    {
      MatchHasLetter(p, s);
    }
  }

  // ----- when a pass changes nothing ----------------------------------------------------

  lemma PassLosesLetters(p: Pattern, t: string)
    ensures Letters(Pass(p, t)) <= Letters(t)
    ensures Letters(Pass(p, t)) == Letters(t) ==> IsSettled(p, t)
  {
    hide Letters, Quiet, Scan;
    PatternsHaveLetters(p);
    ScanLosesLetters(Matcher(p), Unguarded, t, 0);
    assert t[..0] == [] && t[0..] == t;
  }

  ghost predicate AllSettled(t: string) {
    forall p: Pattern :: IsSettled(p, t)
  }

  /** A normalised text is its own rewrite exactly when every match that a pass meets in it stays. */
  lemma RewriteIsFixed(t: string)
    requires IsNormal(t)
    ensures Body(t) == t <==> AllSettled(t)
  {
    hide IsSettled, Pass, Normalised, Letters, IsNormal;
    NormalisedStays(t);
    if AllSettled(t) {
      SettledPass(Drive, t);
      SettledPass(Users, t);
      SettledPass(Home, t);
    }
    if Body(t) == t {
      var t1 := Pass(Drive, t);
      var t2 := Pass(Users, t1);
      PassLosesLetters(Drive, t);
      PassLosesLetters(Users, t1);
      PassLosesLetters(Home, t2);
      LettersOfNormalised(Pass(Home, t2));
      SettledPass(Drive, t);
      SettledPass(Users, t);
      forall p: Pattern
        ensures IsSettled(p, t)
      {
        assert p == Drive || p == Users || p == Home;
      }
    }
  }

  lemma SettledShort(t: string)
    requires |t| <= 1
    ensures AllSettled(t)
  {
    forall p: Pattern
      ensures IsSettled(p, t)
    {
      assert t[0..] == t;
      assert MatchLen(p, t) == 0;
    }
  }

  lemma StartOfSlashes(raw: string)
    requires "~/" <= raw
    ensures "~/" <= Slashes(raw)
  {
    assert Slashes(raw)[0] == Slashed(raw[0]) && Slashes(raw)[1] == Slashed(raw[1]);
  }

  /**
   For every text: masking it twice is masking it once if and only if the masked text counts as
   masked already ("~/...") or every match that a pass meets in it stays there, being guarded or
   not at a boundary.
   */
  lemma MaskingTwice(raw: string)
    ensures Masked(Masked(raw)) == Masked(raw) <==> "~/" <= Masked(raw) || AllSettled(Masked(raw))
  {
    hide Body, AllSettled, Slashes, IsNormal;
    var t := Masked(raw);
    BodyOfShort();
    if "~/" <= raw {
      StartOfSlashes(raw);
      SlashesTwice(raw);
    } else if raw == [] || raw == "~" {
      SlashesOfPlain("~");
      SettledShort(raw);
    } else {
      BodyIsNormal(raw);
      NormalStays(t);
      SlashesOfPlain(t);
      if t == [] || t == "~" {
        SettledShort(t);
      } else if !("~/" <= t) {
        RewriteIsFixed(t);
      }
    }
  }

  lemma {:induction false} LeakFreeIsQuiet(p: Pattern, t: string, i: nat)
    requires LeakFree(t) && i <= |t|
    ensures Quiet(Matcher(p), Unguarded, t, i)
    decreases |t| - i
  {
    hide MatchLen, UrlContext, AtBoundary;
    if i < |t| {
      assert !LeaksAt(t, p, i);
      LeakFreeIsQuiet(p, t, i + StepLen(Matcher(p), t[i..]));
    }
  }

  /** In particular it is when the masked text shows no home path at all. */
  lemma LeakFreeIsStable(raw: string)
    requires LeakFree(Masked(raw))
    ensures Masked(Masked(raw)) == Masked(raw)
  {
    hide Masked, LeakFree, Quiet;
    forall p: Pattern
      ensures IsSettled(p, Masked(raw))
    {
      LeakFreeIsQuiet(p, Masked(raw), 0);
    }
    MaskingTwice(raw);
  }
}
