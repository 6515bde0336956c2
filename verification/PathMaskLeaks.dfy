/**
 What a masked text still shows. The passes interact, one destroying or hiding what another would
 have met, so the exact answer follows every root through all three; the sufficient conditions
 below it can be read off the text.
 */
module PathMaskLeaks {
  import opened Sequences
  import opened PathMask
  import opened PathMaskScan
  import opened PathMaskRoots

  /** A home path, of any of the three patterns, stands at the start of t or after a boundary character. */
  ghost predicate LeaksAt(t: string, p: Pattern, i: nat)
    requires i <= |t|
  {
    AtBoundary(t[..i]) && MatchLen(p, t[i..]) > 0
  }

  ghost predicate LeakFree(t: string) {
    forall p: Pattern, i: nat :: i <= |t| ==> !LeaksAt(t, p, i)
  }

  predicate NoBackslash(s: string) { '\\' !in s }

  // ----- the exact condition ------------------------------------------------------------

  lemma SlashesOfPlain(s: string)
    requires NoBackslash(s)
    ensures Slashes(s) == s
  {
    assert forall i :: 0 <= i < |s| ==> s[i] in s;
  }

  lemma SlashesHasNoBackslash(s: string)
    ensures NoBackslash(Slashes(s))
  {
  }

  /** Without backslashes a root is a match. */
  lemma PlainRootIsMatch(p: Pattern, s: string)
    requires NoBackslash(s)
    ensures RootAt(p, s) <==> MatchLen(p, s) > 0
  {
    SlashesOfPlain(s);
  }

  lemma ShownSomewhere(p: Pattern, t: string)
    ensures Shown(p, true, t) <==> exists i: nat :: i < |t| && AtBoundary(t[..i]) && RootAt(p, t[i..])
  {
    hide RootAt, Shown, AtBoundary;
    ShownIsMarked(p, true, t);
    forall i: nat | i < |t|
      ensures Marks(p, true, t)[i] == (AtBoundary(t[..i]) && RootAt(p, t[i..]))
    {
      MarkOf(p, t, i);
    }
    if true in Marks(p, true, t) {
      var i: nat :| i < |t| && Marks(p, true, t)[i];
      assert AtBoundary(t[..i]) && RootAt(p, t[i..]);
    }
  }

  lemma PlainLeak(t: string, p: Pattern, i: nat)
    requires NoBackslash(t) && i <= |t|
    ensures LeaksAt(t, p, i) <==> i < |t| && AtBoundary(t[..i]) && RootAt(p, t[i..])
  {
    hide RootAt, AtBoundary;
    assert forall c :: c in t[i..] ==> c in t;
    PlainRootIsMatch(p, t[i..]);
  }

  /** No root, of any pattern and in any spelling, stands at a boundary of s. */
  ghost predicate NoRoots(s: string) {
    forall p: Pattern :: !Shown(p, true, s)
  }

  /** No root of raw is copied by all three passes. */
  ghost predicate NoSurvivors(raw: string) {
    forall p: Pattern :: !Survives(p, raw)
  }

  lemma ShownLeaks(t: string, p: Pattern)
    requires NoBackslash(t)
    ensures Shown(p, true, t) <==> exists i: nat :: i <= |t| && LeaksAt(t, p, i)
  {
    hide RootAt, Shown, AtBoundary, LeaksAt;
    ShownSomewhere(p, t);
    forall i: nat | i <= |t|
      ensures LeaksAt(t, p, i) <==> i < |t| && AtBoundary(t[..i]) && RootAt(p, t[i..])
    {
      PlainLeak(t, p, i);
    }
    if Shown(p, true, t) {
      var i: nat :| i < |t| && AtBoundary(t[..i]) && RootAt(p, t[i..]);
      assert LeaksAt(t, p, i);
    }
  }

  lemma LeakFreeIsUnshown(t: string)
    requires NoBackslash(t)
    ensures LeakFree(t) <==> NoRoots(t)
  {
    hide LeaksAt;
    forall p: Pattern
      ensures Shown(p, true, t) <==> exists i: nat :: i <= |t| && LeaksAt(t, p, i)
    {
      ShownLeaks(t, p);
    }
    if !LeakFree(t) {
      var p: Pattern, i: nat :| i <= |t| && LeaksAt(t, p, i);
      assert Shown(p, true, t);
    }
    if !NoRoots(t) {
      var p: Pattern :| Shown(p, true, t);
      assert exists i: nat :: i <= |t| && LeaksAt(t, p, i);
    }
  }

  lemma {:induction false} TildesHasNoBackslash(s: string)
    requires NoBackslash(s)
    ensures NoBackslash(Tildes(s))
  {
    if s != [] {
      assert s[0] in s && forall c :: c in s[1..] ==> c in s;
      TildesHasNoBackslash(s[1..]);
    }
  }

  lemma {:induction false} DropSlashesIn(s: string)
    ensures forall c :: c in DropSlashes(s) ==> c in s
  {
    if s != [] && s[0] == '/' {
      DropSlashesIn(s[1..]);
      assert forall c :: c in s[1..] ==> c in s;
    }
  }

  lemma {:induction false} CollapseHasNoBackslash(s: string)
    requires NoBackslash(s)
    ensures NoBackslash(Collapse(s))
    decreases |s|
  {
    if s != [] {
      assert s[0] in s && forall c :: c in s[1..] ==> c in s;
      if s[0] == '~' && |s| > 1 && s[1] == '/' {
        DropSlashesIn(s[1..]);
        CollapseHasNoBackslash(DropSlashes(s[1..]));
      } else {
        CollapseHasNoBackslash(s[1..]);
      }
    }
  }

  lemma BodyHasNoBackslash(raw: string)
    ensures NoBackslash(Body(raw))
  {
    SlashesHasNoBackslash(Passed(raw));
    TildesHasNoBackslash(Slashes(Passed(raw)));
    CollapseHasNoBackslash(Tildes(Slashes(Passed(raw))));
  }

  lemma BodyLeaksSurvivors(raw: string)
    ensures LeakFree(Body(raw)) <==> NoSurvivors(raw)
  {
    hide LeakFree, Survives, Body;
    BodyHasNoBackslash(raw);
    LeakFreeIsUnshown(Body(raw));
    if NoRoots(Body(raw)) {
      forall p: Pattern
        ensures !Survives(p, raw)
      {
        BodyShowsSurvivors(p, raw);
      }
    } else {
      var p: Pattern :| Shown(p, true, Body(raw));
      BodyShowsSurvivors(p, raw);
    }
  }

  lemma SlashesLeak(raw: string)
    ensures LeakFree(Slashes(raw)) <==> NoRoots(raw)
  {
    hide LeakFree, Slashes;
    SlashesHasNoBackslash(raw);
    LeakFreeIsUnshown(Slashes(raw));
    if NoRoots(Slashes(raw)) {
      forall p: Pattern
        ensures !Shown(p, true, raw)
      {
        SlashesShow(p, true, raw);
      }
    } else {
      var p: Pattern :| Shown(p, true, Slashes(raw));
      SlashesShow(p, true, raw);
    }
  }

  /**
   For every text, URLs included: the masked text shows no home path at the start or after a
   boundary character if and only if no root of the text, in any spelling of its slashes, is
   copied by all three passes; or, when the text counts as masked already ("~/..."), if and only
   if it has no root at a boundary.
   */
  lemma MaskingLeavesNoHome(raw: string)
    ensures LeakFree(Masked(raw)) <==> if "~/" <= raw then NoRoots(raw) else NoSurvivors(raw)
  {
    hide LeakFree, NoRoots, NoSurvivors, Body;
    BodyOfShort();
    if "~/" <= raw {
      SlashesLeak(raw);
    } else {
      assert raw == "~" ==> Slashes(raw) == raw;
      BodyLeaksSurvivors(raw);
    }
  }

  // ----- texts without URLs -------------------------------------------------------------

  lemma {:induction false} ContainsSuffix(t: string, n: nat, part: string)
    requires n <= |t| && Contains(t[n..], part)
    ensures Contains(t, part)
  {
    if n > 0 {
      assert t[1..][n - 1..] == t[n..];
      ContainsSuffix(t[1..], n - 1, part);
    } else {
      assert t[0..] == t;
    }
  }

  lemma {:induction false} ContainsPrefix(t: string, u: string, part: string)
    ensures Contains(t, part) ==> Contains(t + u, part)
  {
    if t == [] {
      assert t + u == u;
    } else if !(part <= t) {
      ContainsPrefix(t[1..], u, part);
      assert (t + u)[1..] == t[1..] + u;
    }
  }

  lemma EndContains(pre: string, part: string)
    requires |part| <= |pre| && pre[|pre| - |part|..] == part
    ensures Contains(pre, part)
  {
    ContainsSuffix(pre, |pre| - |part|, part);
  }

  lemma {:induction false} UrlNeedsSeparator(pre: string)
    ensures UrlContext(pre) ==> Contains(pre, "://")
  {
    hide Contains;
    var n := |pre|;
    if n >= 3 {
      if pre[n - 3..] == "://" {
        EndContains(pre, "://");
      }
      UrlNeedsSeparator(pre[..n - 1]);
      ContainsPrefix(pre[..n - 1], pre[n - 1..], "://");
      assert pre == pre[..n - 1] + pre[n - 1..];
    }
  }

  lemma NoSeparatorNoUrl(t: string, i: nat)
    requires i <= |t| && !Contains(t, "://")
    ensures Unguarded(t[..i]) == AtBoundary(t[..i])
  {
    hide Contains, UrlContext;
    assert t == t[..i] + t[i..];
    UrlNeedsSeparator(t[..i]);
    ContainsPrefix(t[..i], t[i..], "://");
  }

  // ----- drive roots --------------------------------------------------------------------

  lemma {:induction false} SlashRunOfSlashes(s: string)
    ensures SlashRun(Slashes(s)) == SlashRun(s)
  {
    if s != [] {
      SlashesCons(s);
      SlashRunOfSlashes(s[1..]);
      assert Slashes(s)[1..] == Slashes(s[1..]);
    }
  }

  lemma UsersOfSlashes(s: string)
    ensures StartsWith(Slashes(s), "users") ==> StartsWith(s, "users")
  {
    if StartsWith(Slashes(s), "users") {
      forall j | 0 <= j < 5
        ensures Lower(s[..5])[j] == "users"[j]
      {
        assert Lower(Slashes(s)[..5])[j] == LowerChar(Slashed(s[j])) == "users"[j];
      }
    }
  }

  /** The drive pattern takes both slashes, so a drive root is a drive match however it is spelled. */
  lemma DriveRootIsMatch(s: string)
    requires RootAt(Drive, s)
    ensures MatchLen(Drive, s) > 0
  {
    var u := Slashes(s);
    var h, a := DriveHead(u), 2 + SlashRun(u[2..]);
    DriveParts(u);
    SlashesSuffix(s, 2);
    SlashesSuffix(s, a);
    SlashesSuffix(s, a + 5);
    SlashRunOfSlashes(s[2..]);
    UsersOfSlashes(s[a..]);
    SlashRunOfSlashes(s[a + 5..]);
    assert u[0] == Slashed(s[0]) && u[1] == Slashed(s[1]) && u[h] == Slashed(s[h]);
    DrivePartsGive(s, a, h);
  }

  /** A drive root stands at a boundary inside a drive match that does not, and so stays. */
  ghost predicate Shields(raw: string, i: nat, j: nat)
    requires i < j < |raw|
  {
    && j < i + MatchLen(Drive, raw[i..]) && !AtBoundary(raw[..i])
    && AtBoundary(raw[..j]) && RootAt(Drive, raw[j..])
  }

  ghost predicate ShieldsNone(raw: string) {
    forall i: nat, j: nat :: i < j < |raw| ==> !Shields(raw, i, j)
  }

  /** The drive scan, `skip` characters before the end of the staying match that began at `from`. */
  ghost predicate InMatch(q: Pattern, t: string, i: nat, skip: nat, from: nat)
    requires i <= |t|
  {
    skip > 0 ==> from < i && i + skip == from + MatchLen(q, t[from..]) && !AtBoundary(t[..from])
  }

  lemma NextInMatch(q: Pattern, t: string, i: nat, skip: nat, from: nat)
    requires i < |t| && InMatch(q, t, i, skip, from) && !Replaced(Matcher(q), Unguarded, t, i, skip)
    requires Unguarded(t[..i]) == AtBoundary(t[..i])
    ensures InMatch(q, t, i + 1, NextSkip(Matcher(q), t, i, skip), if skip > 0 then from else i)
  {
    hide MatchLen, Unguarded, AtBoundary;
  }

  /** Wherever the scan of pattern q may copy, nothing is marked. */
  ghost predicate MarksAreMet(q: Pattern, t: string, marks: seq<bool>)
    requires |marks| == |t|
  {
    forall i: nat, skip: nat, from: nat :: i < |t| && InMatch(q, t, i, skip, from) ==>
      Replaced(Matcher(q), Unguarded, t, i, skip) || !marks[i]
  }

  /** Without URLs such marks all go with the matches that are replaced. */
  lemma {:induction false} MetMarksGo(p: Pattern, q: Pattern, t: string, i: nat, skip: nat, r: bool,
                                      from: nat, marks: seq<bool>)
    requires i <= |t| == |marks| && !Contains(t, "://") && InMatch(q, t, i, skip, from) && MarksAreMet(q, t, marks)
    ensures true !in Carried(p, Matcher(q), Unguarded, t, i, skip, r, marks)
    decreases |t| - i
  {
    hide AtBoundary, Unguarded, MatchLen, Contains, IsCut, InMatch, Walk;
    if i < |t| {
      NoSeparatorNoUrl(t, i);
      if Replaced(Matcher(q), Unguarded, t, i, skip) {
        NotInMatch(q, t, i + Matcher(q)(t[i..]), from);
        MetMarksGo(p, q, t, i + Matcher(q)(t[i..]), 0, false, from, marks);
      } else {
        NextInMatch(q, t, i, skip, from);
        MetMarksGo(p, q, t, i + 1, NextSkip(Matcher(q), t, i, skip), true, if skip > 0 then from else i, marks);
      }
    }
  }

  lemma NotInMatch(q: Pattern, t: string, i: nat, from: nat)
    requires i <= |t|
    ensures InMatch(q, t, i, 0, from)
  {
  }

  lemma DriveMarkIsShielded(t: string, i: nat, skip: nat, from: nat)
    requires i < |t| && InMatch(Drive, t, i, skip, from)
    requires !Replaced(Matcher(Drive), Unguarded, t, i, skip) && Unguarded(t[..i]) == AtBoundary(t[..i])
    requires AtBoundary(t[..i]) && RootAt(Drive, t[i..])
    ensures from < i && Shields(t, from, i)
  {
    hide RootAt, AtBoundary, Unguarded;
    DriveRootIsMatch(t[i..]);
  }

  lemma DriveMarksAreMet(t: string)
    requires !Contains(t, "://") && ShieldsNone(t)
    ensures MarksAreMet(Drive, t, Marks(Drive, true, t))
  {
    hide RootAt, AtBoundary, Unguarded, MatchLen, Contains, Shields, InMatch, Marks;
    forall i: nat, skip: nat, from: nat | i < |t| && InMatch(Drive, t, i, skip, from)
      ensures Replaced(Matcher(Drive), Unguarded, t, i, skip) || !Marks(Drive, true, t)[i]
    {
      NoSeparatorNoUrl(t, i);
      MarkOf(Drive, t, i);
      if !Replaced(Matcher(Drive), Unguarded, t, i, skip) && Marks(Drive, true, t)[i] {
        DriveMarkIsShielded(t, i, skip, from);
      }
    }
  }

  /**
   In a text without "://", no drive root survives masking when none starts at a boundary inside a
   drive match that is not at one.
   */
  lemma DriveRootsDoNotSurvive(raw: string)
    requires !Contains(raw, "://") && ShieldsNone(raw)
    ensures !Survives(Drive, raw)
  {
    hide Carried, ShieldsNone, Contains;
    var t1 := Pass(Drive, raw);
    DriveMarksAreMet(raw);
    MetMarksGo(Drive, Drive, raw, 0, 0, true, 0, Marks(Drive, true, raw));
    NothingThrough(Drive, Users, t1, Through(Drive, Drive, raw, Marks(Drive, true, raw)));
    NothingThrough(Drive, Home, Pass(Users, t1),
                   Through(Drive, Users, t1, Through(Drive, Drive, raw, Marks(Drive, true, raw))));
  }

  /** When the first pass copies no root at all, nothing survives: texts whose only roots are drive paths. */
  lemma DriveTextsAreMasked(raw: string)
    requires !("~/" <= raw)
    requires forall p: Pattern :: true !in Through(p, Drive, raw, Marks(p, true, raw))
    ensures LeakFree(Masked(raw))
  {
    hide Through, Marks, LeakFree, Masked;
    var t1 := Pass(Drive, raw);
    forall p: Pattern
      ensures !Survives(p, raw)
    {
      var marks := Through(p, Drive, raw, Marks(p, true, raw));
      NothingThrough(p, Users, t1, marks);
      NothingThrough(p, Home, Pass(Users, t1), Through(p, Users, t1, marks));
    }
    MaskingLeavesNoHome(raw);
  }
}
