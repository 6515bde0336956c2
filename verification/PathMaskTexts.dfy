/**
 Ordinary texts: plain ones, paths on a drive, and running text with URLs in it. Here it can be
 read off the text that masking hides every home path and that a second masking changes nothing.
 */
module PathMaskTexts {
  import opened Sequences
  import opened PathMask
  import opened PathMaskLeaks
  import opened PathMaskRoots
  import opened PathMaskScan
  import opened PathMaskTwice
  import opened PathMaskWords

  // ----- plain texts --------------------------------------------------------------------

  ghost predicate IsPlain(t: string) { NoBackslash(t) && !Contains(t, "//") }

  lemma {:induction false} WalkAddsTildes(m: string -> nat, g: string -> bool, t: string, i: nat, skip: nat)
    requires i <= |t| && NoBackslash(t)
    ensures NoBackslash(Walk(m, g, t, i, skip))
    decreases |t| - i
  {
    if i < |t| {
      assert t[i] in t;
      if Replaced(m, g, t, i, skip) {
        WalkAddsTildes(m, g, t, i + m(t[i..]), 0);
      } else {
        WalkAddsTildes(m, g, t, i + 1, NextSkip(m, t, i, skip));
      }
    }
  }

  /** The slash patterns that no pass puts together. */
  predicate IsPart(part: string) { part == "//" || part == "://" }

  lemma PartIsCopied(m: string -> nat, g: string -> bool, t: string, i: nat, skip: nat, part: string)
    requires AsksBoundary(g) && i <= |t| && IsPart(part) && part <= Walk(m, g, t, i, skip)
    ensures Contains(t[i..], part)
  {
    var out, n := Walk(m, g, t, i, skip), |part|;
    assert out[..n] == part;
    assert forall j :: 0 <= j < n ==> out[j] == part[j];
    CopiedPrefix(m, g, t, i, skip, n - 1);
    assert t[i..][..n] == t[i..i + n] == out[..n];
  }

  lemma {:induction false} WalkMakesNoPart(m: string -> nat, g: string -> bool, t: string, i: nat, skip: nat,
                                           part: string)
    requires AsksBoundary(g) && i <= |t| && IsPart(part)
    ensures Contains(Walk(m, g, t, i, skip), part) ==> Contains(t[i..], part)
    decreases |t| - i
  {
    var out := Walk(m, g, t, i, skip);
    if part <= out {
      PartIsCopied(m, g, t, i, skip, part);
    } else if i < |t| {
      var gone := Replaced(m, g, t, i, skip);
      var next, left := if gone then i + m(t[i..]) else i + 1, if gone then 0 else NextSkip(m, t, i, skip);
      assert out[1..] == Walk(m, g, t, next, left);
      WalkMakesNoPart(m, g, t, next, left, part);
      if Contains(t[next..], part) {
        assert t[next..] == t[i..][next - i..];
        ContainsSuffix(t[i..], next - i, part);
      }
    }
  }

  lemma PassKeepsForward(p: Pattern, t: string, part: string)
    requires NoBackslash(t) && !Contains(t, part) && IsPart(part)
    ensures NoBackslash(Pass(p, t)) && !Contains(Pass(p, t), part)
  {
    hide Walk, Pass, Contains;
    GuardAsksBoundary();
    PassIsWalk(p, t);
    WalkAddsTildes(Matcher(p), Unguarded, t, 0, 0);
    WalkMakesNoPart(Matcher(p), Unguarded, t, 0, 0, part);
    assert t[0..] == t;
  }

  lemma {:induction false} SeparatorHasPair(t: string)
    ensures Contains(t, "://") ==> Contains(t, "//")
  {
    if "://" <= t {
      assert t[1..][..2] == t[..3][1..] == "//";
      ContainsSuffix(t, 1, "//");
    } else if t != [] {
      SeparatorHasPair(t[1..]);
    }
  }

  /** After its first slash a POSIX match has no slash that stands at a boundary. */
  lemma NoSlashInside(p: Pattern, s: string, j: nat)
    requires p != Drive && 0 < j < MatchLen(p, s) && s[j] == '/'
    ensures !IsBoundary(s[j - 1])
  {
    var h := Head(p, s);
    if j < h {
      PosixHeadShape(p, s, j);
      assert Lower(s[..h])[j] == LowerChar(s[j]) == WordOf(p)[j];
      PosixHeadShape(p, s, j - 1);
      assert Lower(s[..h])[j - 1] == LowerChar(s[j - 1]) == WordOf(p)[j - 1];
    } else {
      assert s[h..][j - h] == s[j];
      NameRunIsNames(p, s[h..], j - h);
    }
  }

  lemma {:induction false} NameRunIsNames(p: Pattern, s: string, j: nat)
    requires j < NameRun(p, s)
    ensures IsName(p, s[j])
  {
    if j > 0 {
      NameRunIsNames(p, s[1..], j - 1);
    }
  }

  lemma PosixMatchStartsWithSlash(p: Pattern, s: string)
    requires p != Drive && MatchLen(p, s) > 0
    ensures s != [] && s[0] == '/'
  {
    assert Lower(s[..Head(p, s)])[0] == LowerChar(s[0]) == WordOf(p)[0];
  }

  /** Where a scan that meets no match to replace stands or has passed, there is none. */
  lemma {:induction false} QuietSpares(p: Pattern, t: string, i: nat, j: nat)
    requires p != Drive && i <= j < |t| && Quiet(Matcher(p), Unguarded, t, i)
    ensures !Replaces(p, t[..j], t[j..])
    decreases |t| - i
  {
    hide MatchLen, UrlContext;
    var k := StepLen(Matcher(p), t[i..]);
    if j >= i + k {
      QuietSpares(p, t, i + k, j);
    } else if i < j && Replaces(p, t[..j], t[j..]) {
      PosixMatchStartsWithSlash(p, t[j..]);
      assert t[i..][j - i] == t[j] && t[i..][j - i - 1] == t[j - 1];
      NoSlashInside(p, t[i..], j - i);
    }
  }

  /** For the POSIX patterns "every match that the pass meets stays" means that every match is guarded. */
  lemma PosixIsSettled(p: Pattern, t: string)
    requires p != Drive
    ensures IsSettled(p, t) <==> forall j :: 0 <= j < |t| ==> !Replaces(p, t[..j], t[j..])
  {
    hide Replaces, Quiet;
    if IsSettled(p, t) {
      forall j | 0 <= j < |t|
        ensures !Replaces(p, t[..j], t[j..])
      {
        QuietSpares(p, t, 0, j);
      }
    }
    if forall j :: 0 <= j < |t| ==> !Replaces(p, t[..j], t[j..]) {
      NothingReplacedIsQuiet(p, t, 0);
    }
  }

  lemma PosixRootStartsWithSlash(p: Pattern, s: string)
    requires p != Drive && NoBackslash(s) && RootAt(p, s)
    ensures s[0] == '/' && MatchLen(p, s) > 0
  {
    SlashesOfPlain(s);
    assert Lower(s[..Head(p, s)])[0] == LowerChar(s[0]) == WordOf(p)[0];
  }

  lemma NoMarkInside(p: Pattern, t: string, i: nat, skip: nat, from: nat)
    requires i < |t| && p != Drive && NoBackslash(t) && InMatch(p, t, i, skip, from)
    requires !Replaced(Matcher(p), Unguarded, t, i, skip) && Unguarded(t[..i]) == AtBoundary(t[..i])
    ensures !(AtBoundary(t[..i]) && RootAt(p, t[i..]))
  {
    hide RootAt, Unguarded;
    assert forall c :: c in t[i..] ==> c in t;
    if RootAt(p, t[i..]) {
      PosixRootStartsWithSlash(p, t[i..]);
      if skip > 0 {
        assert t[from..][i - from] == t[i] && t[from..][i - from - 1] == t[i - 1];
        NoSlashInside(p, t[from..], i - from);
      }
    }
  }

  /** In a plain text a POSIX pass meets every root of its own pattern that stands at a boundary. */
  lemma OwnMarksAreMet(p: Pattern, t: string)
    requires p != Drive && NoBackslash(t) && !Contains(t, "://")
    ensures MarksAreMet(p, t, Marks(p, true, t))
  {
    hide RootAt, AtBoundary, Unguarded, MatchLen, Contains, InMatch, Marks, NoBackslash;
    forall i: nat, skip: nat, from: nat | i < |t| && InMatch(p, t, i, skip, from)
      ensures Replaced(Matcher(p), Unguarded, t, i, skip) || !Marks(p, true, t)[i]
    {
      NoSeparatorNoUrl(t, i);
      MarkOf(p, t, i);
      if !Replaced(Matcher(p), Unguarded, t, i, skip) {
        NoMarkInside(p, t, i, skip, from);
      }
    }
  }

  lemma OwnPassHides(p: Pattern, t: string)
    requires p != Drive && NoBackslash(t) && !Contains(t, "://")
    ensures true !in Marks(p, true, Pass(p, t))
  {
    hide Carried, Marks, Contains, MarksAreMet;
    PassCarriesMarks(p, p, t);
    OwnMarksAreMet(p, t);
    MetMarksGo(p, p, t, 0, 0, true, 0, Marks(p, true, t));
  }

  /** In a text without backslashes and without URLs no POSIX root survives, even among doubled slashes. */
  lemma ForwardRootsDoNotSurvive(raw: string)
    requires NoBackslash(raw) && !Contains(raw, "://")
    ensures !Survives(Users, raw) && !Survives(Home, raw)
  {
    hide Marks, Contains;
    var t1 := Pass(Drive, raw);
    var t2 := Pass(Users, t1);
    PassKeepsForward(Drive, raw, "://");
    PassKeepsForward(Users, t1, "://");
    OwnPassHides(Users, t1);
    OwnPassHides(Home, t2);
    SurvivorsAreMarks(Users, raw);
    SurvivorsAreMarks(Home, raw);
    PassCarriesMarks(Users, Home, t2);
    NothingThrough(Users, Home, t2, Marks(Users, true, t2));
  }

  lemma SingleRun(s: string, i: nat)
    requires i <= |s| && IsPlain(s)
    ensures SlashRun(s[i..]) <= 1
    ensures SlashRun(s[i..]) == 1 ==> i < |s| && s[i] == '/'
  {
    if i < |s| && IsSlash(s[i]) {
      assert s[i] in s;
      var u := s[i..];
      assert u[1..] == s[i + 1..];
      if |u| > 1 && IsSlash(u[1]) {
        assert u[1] == s[i + 1] && s[i + 1] in s;
        assert u[..2] == "//";
        ContainsSuffix(s, i, "//");
      }
    }
  }

  /** In a plain text a drive root holds a users root right after its colon. */
  lemma DriveRootHoldsUsers(s: string)
    requires IsPlain(s) && RootAt(Drive, s)
    ensures |s| > 2 && s[1] == ':' && RootAt(Users, s[2..])
  {
    SlashesOfPlain(s);
    DriveParts(s);
    SingleRun(s, 2);
    SingleRun(s, 8);
    assert DriveHead(s) == 9;
    var u := s[2..];
    assert forall c :: c in u ==> c in s;
    SlashesOfPlain(u);
    forall i | 0 <= i < 7
      ensures Lower(u[..7])[i] == "/users/"[i]
    {
      assert u[i] == s[2 + i];
      assert 0 < i < 6 ==> Lower(s[3..][..5])[i - 1] == LowerChar(s[2 + i]);
    }
    assert u[7] == s[9];
  }

  lemma PlainSuffix(t: string, i: nat)
    requires i <= |t| && IsPlain(t)
    ensures IsPlain(t[i..])
  {
    assert forall c :: c in t[i..] ==> c in t;
    if Contains(t[i..], "//") {
      ContainsSuffix(t, i, "//");
    }
  }

  lemma DriveMarkHoldsUsers(t: string, i: nat)
    requires IsPlain(t) && i < |t| && RootAt(Drive, t[i..])
    ensures i + 2 < |t| && Marks(Users, true, t)[i + 2]
  {
    hide RootAt, Marks, IsPlain;
    PlainSuffix(t, i);
    DriveRootHoldsUsers(t[i..]);
    assert t[i..][2..] == t[i + 2..] && t[..i + 2][i + 1] == t[i..][1];
    MarkOf(Users, t, i + 2);
  }

  lemma NoUsersNoDrive(t: string)
    requires IsPlain(t) && true !in Marks(Users, true, t)
    ensures true !in Marks(Drive, true, t)
  {
    hide RootAt, Marks, IsPlain;
    forall i: nat | i < |t|
      ensures !Marks(Drive, true, t)[i]
    {
      MarkOf(Drive, t, i);
      if Marks(Drive, true, t)[i] {
        DriveMarkHoldsUsers(t, i);
      }
    }
  }

  lemma PlainTextsHaveNoSurvivors(raw: string)
    requires IsPlain(raw)
    ensures NoSurvivors(raw)
  {
    hide Marks, Contains;
    var t1 := Pass(Drive, raw);
    var t2 := Pass(Users, t1);
    SeparatorHasPair(raw);
    SeparatorHasPair(t1);
    ForwardRootsDoNotSurvive(raw);
    PassKeepsForward(Drive, raw, "//");
    PassKeepsForward(Users, t1, "//");
    OwnPassHides(Users, t1);
    NoUsersNoDrive(t2);
    SurvivorsAreMarks(Drive, raw);
    PassCarriesMarks(Drive, Home, t2);
    NothingThrough(Drive, Home, t2, Marks(Drive, true, t2));
    forall p: Pattern
      ensures !Survives(p, raw)
    {
      assert p == Drive || p == Users || p == Home;
    }
  }

  /**
   For every text with no backslash and no "//": masking is idempotent, and unless the text
   starts with "~/" no home path of any pattern is left.
   */
  lemma PlainTextsAreMasked(raw: string)
    requires NoBackslash(raw) && !Contains(raw, "//")
    ensures Masked(Masked(raw)) == Masked(raw)
    ensures !("~/" <= raw) ==> LeakFree(Masked(raw))
  {
    hide Masked, NoSurvivors, LeakFree, Contains;
    PlainTextsHaveNoSurvivors(raw);
    MaskingLeavesNoHome(raw);
    if "~/" <= raw {
      MarkedTextIsStable(raw);
    } else {
      LeakFreeIsStable(raw);
    }
  }

  lemma MarkedTextIsStable(raw: string)
    requires "~/" <= raw
    ensures Masked(Masked(raw)) == Masked(raw)
  {
    StartOfSlashes(raw);
    SlashesTwice(raw);
  }

  /**
   For every text without "://", backslashes single or doubled: if no drive root is shielded and
   no POSIX root survives, nothing is shown and a second masking changes nothing.
   */
  lemma TextsWithoutUrls(raw: string)
    requires !Contains(raw, "://") && !("~/" <= raw)
    requires ShieldsNone(raw) && !Survives(Users, raw) && !Survives(Home, raw)
    ensures LeakFree(Masked(raw)) && Masked(Masked(raw)) == Masked(raw)
  {
    hide Masked, Survives, LeakFree, Contains, ShieldsNone;
    DriveRootsDoNotSurvive(raw);
    forall p: Pattern
      ensures !Survives(p, raw)
    {
      assert p == Drive || p == Users || p == Home;
    }
    MaskingLeavesNoHome(raw);
    LeakFreeIsStable(raw);
  }

  // ----- running text -------------------------------------------------------------------

  /** Words with one white-space character between each two. */
  function Join(words: seq<string>, sp: char): string {
    if words == [] then [] else if |words| == 1 then words[0] else words[0] + [sp] + Join(words[1..], sp)
  }

  /** A URL of the kind `UrlIsKept` leaves alone. */
  ghost predicate IsUrl(word: string) {
    exists scheme: string, rest: string ::
      word == scheme + "://" + rest && IsScheme(scheme) && |scheme| > 1
      && NoSpace(rest) && '~' !in rest && '\\' !in rest
  }

  lemma {:induction false} BodyOfJoin(words: seq<string>, sp: char)
    requires IsSpace(sp)
    ensures Body(Join(words, sp)) == Join(Map(Body, words), sp)
  {
    hide Body;
    if words == [] {
      BodyOfShort();
    } else if |words| > 1 {
      BodyOfJoin(words[1..], sp);
      BodyByWords(words[0], sp, Join(words[1..], sp));
      assert Map(Body, words)[1..] == Map(Body, words[1..]);
    }
  }

  lemma StartOfJoin(words: seq<string>, sp: char)
    requires IsSpace(sp) && words != []
    ensures "~/" <= Join(words, sp) <==> "~/" <= words[0]
  {
    if |words| > 1 {
      StartOfWords(words[0], sp, Join(words[1..], sp));
    }
  }

  lemma WordIsMasked(word: string)
    ensures IsUrl(word) ==> Body(word) == word
    ensures LeakFree(Body(word)) <==> NoSurvivors(word)
  {
    hide Body, LeakFree, NoSurvivors;
    BodyLeaksSurvivors(word);
    if IsUrl(word) {
      var scheme: string, rest: string :|
        word == scheme + "://" + rest && IsScheme(scheme) && |scheme| > 1
        && NoSpace(rest) && '~' !in rest && '\\' !in rest;
      UrlBodyIsKept(scheme, rest);
    }
  }

  /**
   Running text, unless it starts with "~/", is masked word by word: each URL comes out as it is,
   and what any word becomes shows no home path if and only if no root of that word survives.
   */
  lemma RunningTextIsMasked(words: seq<string>, sp: char)
    requires IsSpace(sp) && words != []
    ensures Masked(Join(words, sp))
         == if "~/" <= words[0] then Slashes(Join(words, sp)) else Join(Map(Body, words), sp)
    ensures forall i :: 0 <= i < |words| ==>
      (IsUrl(words[i]) ==> Body(words[i]) == words[i])
      && (LeakFree(Body(words[i])) <==> NoSurvivors(words[i]))
  {
    hide Body, Masked, LeakFree, NoSurvivors, IsUrl, Join;
    StartOfJoin(words, sp);
    MaskedIsBody(Join(words, sp));
    BodyOfJoin(words, sp);
    forall i | 0 <= i < |words|
      ensures (IsUrl(words[i]) ==> Body(words[i]) == words[i])
           && (LeakFree(Body(words[i])) <==> NoSurvivors(words[i]))
    {
      WordIsMasked(words[i]);
    }
  }
}
