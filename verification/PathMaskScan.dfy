/**
 A pass of the masker, one character at a time: the form in which what it copies and what it
 replaces can be followed. Nothing here depends on which patterns and guards are used.
 */
module PathMaskScan {
  import opened Sequences
  import opened PathMask

  /** At position i, `skip` characters into the rest of a match that stays, a match is replaced. */
  predicate Replaced(m: string -> nat, g: string -> bool, t: string, i: nat, skip: nat)
    requires i <= |t|
  {
    skip == 0 && g(t[..i]) && Matches(m, t[i..])
  }

  /** How many characters of a match that stays are still to be copied after position i. */
  function NextSkip(m: string -> nat, t: string, i: nat, skip: nat): nat
    requires i <= |t|
  {
    if skip > 0 then skip - 1 else if Matches(m, t[i..]) then m(t[i..]) - 1 else 0
  }

  /** The scan of t from position i. */
  function Walk(m: string -> nat, g: string -> bool, t: string, i: nat, skip: nat): string
    requires i <= |t|
    decreases |t| - i
  {
    if i == |t| then []
    else if Replaced(m, g, t, i, skip) then "~" + Walk(m, g, t, i + m(t[i..]), 0)
    else [t[i]] + Walk(m, g, t, i + 1, NextSkip(m, t, i, skip))
  }

  lemma WalkOne(m: string -> nat, g: string -> bool, t: string, i: nat, skip: nat)
    requires i < |t| && !Replaced(m, g, t, i, skip)
    ensures Walk(m, g, t, i, skip) == [t[i]] + Walk(m, g, t, i + 1, NextSkip(m, t, i, skip))
  {
  }

  lemma SliceCons(t: string, i: nat, j: nat)
    requires i < j <= |t|
    ensures t[i..j] == [t[i]] + t[i + 1..j]
  {
  }

  lemma {:induction false} WalkSkips(m: string -> nat, g: string -> bool, t: string, i: nat, skip: nat)
    requires i + skip <= |t| && skip > 0
    ensures Walk(m, g, t, i, skip) == t[i..i + skip] + Walk(m, g, t, i + skip, 0)
    decreases skip
  {
    hide Walk;
    WalkOne(m, g, t, i, skip);
    SliceCons(t, i, i + skip);
    if skip > 1 {
      WalkSkips(m, g, t, i + 1, skip - 1);
    }
  }

  lemma WalkCopies(m: string -> nat, g: string -> bool, t: string, i: nat, k: nat)
    requires i < |t| && k == StepLen(m, t[i..]) && !(g(t[..i]) && Matches(m, t[i..]))
    ensures Walk(m, g, t, i, 0) == t[i..i + k] + Walk(m, g, t, i + k, 0)
  {
    hide Walk;
    WalkOne(m, g, t, i, 0);
    SliceCons(t, i, i + k);
    if k > 1 {
      WalkSkips(m, g, t, i + 1, k - 1);
    }
  }

  lemma WalkReplaces(m: string -> nat, g: string -> bool, t: string, i: nat)
    requires i < |t| && g(t[..i]) && Matches(m, t[i..])
    ensures Walk(m, g, t, i, 0) == "~" + Walk(m, g, t, i + m(t[i..]), 0)
  {
  }

  lemma BothEnd(m: string -> nat, g: string -> bool, t: string)
    ensures Walk(m, g, t, |t|, 0) == Scan(m, g, t[..|t|], t[|t|..]) == []
  {
  }

  lemma {:induction false} WalkIsScan(m: string -> nat, g: string -> bool, t: string, i: nat)
    requires i <= |t|
    ensures Walk(m, g, t, i, 0) == Scan(m, g, t[..i], t[i..])
    decreases |t| - i
  {
    hide Walk, Scan;
    if i == |t| {
      BothEnd(m, g, t);
    } else {
      var k := StepLen(m, t[i..]);
      WalkIsScan(m, g, t, i + k);
      ScanStep(m, g, t, i);
      if g(t[..i]) && Matches(m, t[i..]) {
        WalkReplaces(m, g, t, i);
      } else {
        WalkCopies(m, g, t, i, k);
        assert t[i..][..k] == t[i..i + k];
      }
    }
  }

  lemma PassIsWalk(p: Pattern, t: string)
    ensures Pass(p, t) == Walk(Matcher(p), Unguarded, t, 0, 0)
  {
    WalkIsScan(Matcher(p), Unguarded, t, 0);
    assert t[..0] == [] && t[0..] == t;
  }

  // ----- what a scan copies -------------------------------------------------------------

  /** A guard that lets matches be replaced at the start or after a boundary character only. */
  ghost predicate AsksBoundary(g: string -> bool) {
    forall pre :: g(pre) ==> AtBoundary(pre)
  }

  lemma GuardAsksBoundary()
    ensures AsksBoundary(Unguarded)
  {
  }

  lemma NoBoundaryNoReplacement(m: string -> nat, g: string -> bool, t: string, i: nat, skip: nat)
    requires AsksBoundary(g) && 0 < i <= |t| && !IsBoundary(t[i - 1])
    ensures !Replaced(m, g, t, i, skip)
  {
    assert t[..i][i - 1] == t[i - 1];
  }

  lemma NoTildeNotReplaced(m: string -> nat, g: string -> bool, t: string, i: nat, skip: nat)
    requires i <= |t|
    requires var out := Walk(m, g, t, i, skip); out != [] && out[0] != '~'
    ensures i < |t| && !Replaced(m, g, t, i, skip)
  {
  }

  lemma WalkAtEnd(m: string -> nat, g: string -> bool, t: string, i: nat, skip: nat)
    requires i <= |t| && Walk(m, g, t, i, skip) != []
    ensures i < |t|
  {
  }

  /** Output up to the first tilde is copied, and so is one more character after a non-boundary. */
  lemma {:induction false} CopiedPrefix(m: string -> nat, g: string -> bool, t: string, i: nat, skip: nat, k: nat)
    requires AsksBoundary(g) && i <= |t|
    requires var out := Walk(m, g, t, i, skip);
      && k < |out| && (forall j :: 0 <= j < k ==> out[j] != '~')
      && (if k == 0 then !Replaced(m, g, t, i, skip) else !IsBoundary(out[k - 1]))
    ensures i + k < |t| && t[i..i + k + 1] == Walk(m, g, t, i, skip)[..k + 1]
    decreases k
  {
    hide Walk, Replaced, NextSkip, IsBoundary, AsksBoundary;
    var out := Walk(m, g, t, i, skip);
    WalkAtEnd(m, g, t, i, skip);
    if k == 0 {
      WalkOne(m, g, t, i, skip);
      assert t[i..i + 1] == [t[i]] == out[..1];
    } else {
      assert out[0] != '~';
      NoTildeNotReplaced(m, g, t, i, skip);
      WalkOne(m, g, t, i, skip);
      var next := NextSkip(m, t, i, skip);
      var rest := Walk(m, g, t, i + 1, next);
      assert forall j :: 0 <= j < k - 1 ==> rest[j] == out[j + 1];
      if k == 1 {
        NoBoundaryNoReplacement(m, g, t, i + 1, next);
      } else {
        assert rest[k - 2] == out[k - 1];
      }
      CopiedPrefix(m, g, t, i + 1, next, k - 1);
      SliceCons(t, i, i + k + 1);
      assert out[..k + 1] == [t[i]] + rest[..k];
    }
  }

  /** What starts where nothing is replaced is copied as far as no boundary character goes before. */
  lemma {:induction false} CopyRun(m: string -> nat, g: string -> bool, t: string, i: nat, skip: nat, n: nat)
    requires AsksBoundary(g) && i + n <= |t| && n > 0
    requires !Replaced(m, g, t, i, skip)
    requires forall j :: i <= j < i + n - 1 ==> !IsBoundary(t[j])
    ensures n <= |Walk(m, g, t, i, skip)| && Walk(m, g, t, i, skip)[..n] == t[i..i + n]
    decreases n
  {
    var next := NextSkip(m, t, i, skip);
    var rest := Walk(m, g, t, i + 1, next);
    assert Walk(m, g, t, i, skip) == [t[i]] + rest;
    if n == 1 {
      assert t[i..i + 1] == [t[i]];
    } else {
      assert !IsBoundary(t[i]);
      NoBoundaryNoReplacement(m, g, t, i + 1, next);
      CopyRun(m, g, t, i + 1, next, n - 1);
      assert t[i..i + n] == [t[i]] + t[i + 1..i + n];
      assert ([t[i]] + rest)[..n] == [t[i]] + rest[..n - 1];
    }
  }

  // ----- scans that replace nothing -----------------------------------------------------

  /** Every match that the scan meets from position i on is one that stays. */
  predicate Quiet(m: string -> nat, g: string -> bool, t: string, i: nat)
    requires i <= |t|
    decreases |t| - i
  {
    i == |t| || (!(Matches(m, t[i..]) && g(t[..i])) && Quiet(m, g, t, i + StepLen(m, t[i..])))
  }

  lemma ScanKeeps(m: string -> nat, g: string -> bool, t: string, i: nat, k: nat)
    requires i < |t| && k == StepLen(m, t[i..]) && !(Matches(m, t[i..]) && g(t[..i]))
    requires Scan(m, g, t[..i + k], t[i + k..]) == t[i + k..]
    ensures Scan(m, g, t[..i], t[i..]) == t[i..]
  {
    ScanStep(m, g, t, i);
    assert t[i..] == t[i..][..k] + t[i + k..];
  }

  lemma {:induction false} QuietScan(m: string -> nat, g: string -> bool, t: string, i: nat)
    requires i <= |t| && Quiet(m, g, t, i)
    ensures Scan(m, g, t[..i], t[i..]) == t[i..]
    decreases |t| - i
  {
    if i < |t| {
      var k := StepLen(m, t[i..]);
      QuietScan(m, g, t, i + k);
      ScanKeeps(m, g, t, i, k);
    }
  }

  /** Every match that this pass meets in t is one that stays. */
  predicate IsSettled(p: Pattern, t: string) { Quiet(Matcher(p), Unguarded, t, 0) }

  lemma SettledPass(p: Pattern, t: string)
    requires IsSettled(p, t)
    ensures Pass(p, t) == t
  {
    QuietScan(Matcher(p), Unguarded, t, 0);
    assert t[..0] == [] && t[0..] == t;
  }

  // ----- letters ------------------------------------------------------------------------

  function Letters(s: string): nat { |Filter(IsLetter, s)| }

  lemma LettersAppend(s: string, t: string)
    ensures Letters(s + t) == Letters(s) + Letters(t)
  {
    FilterAppend(IsLetter, s, t);
  }

  /** Every match contains a letter. */
  ghost predicate MatchesLetters(m: string -> nat) {
    forall s :: Matches(m, s) ==> Letters(s[..m(s)]) > 0
  }

  lemma LettersOfSplit(s: string, k: nat)
    requires k <= |s|
    ensures Letters(s) == Letters(s[..k]) + Letters(s[k..])
  {
    LettersAppend(s[..k], s[k..]);
    assert s == s[..k] + s[k..];
  }

  /** What one step makes of the letters it consumes. */
  lemma StepLosesLetters(m: string -> nat, g: string -> bool, t: string, i: nat, k: nat)
    requires i < |t| && k == StepLen(m, t[i..]) && MatchesLetters(m)
    ensures var rest := Scan(m, g, t[..i + k], t[i + k..]);
      Letters(t[i..]) - Letters(t[i + k..]) - Letters(Scan(m, g, t[..i], t[i..])) + Letters(rest)
      == if g(t[..i]) && Matches(m, t[i..]) then Letters(t[i..][..k]) else 0
  {
    var s, rest := t[i..], Scan(m, g, t[..i + k], t[i + k..]);
    ScanStep(m, g, t, i);
    LettersOfSplit(s, k);
    assert s[k..] == t[i + k..];
    LettersAppend("~", rest);
    LettersAppend(s[..k], rest);
    assert Letters("~") == 0;
  }

  lemma ScanOfNothing(m: string -> nat, g: string -> bool, t: string)
    ensures Scan(m, g, t[..|t|], t[|t|..]) == t[|t|..] == []
  {
  }

  /** A scan never adds letters, and keeps their number only if it replaces nothing. */
  lemma {:induction false} ScanLosesLetters(m: string -> nat, g: string -> bool, t: string, i: nat)
    requires i <= |t| && MatchesLetters(m)
    ensures Letters(Scan(m, g, t[..i], t[i..])) <= Letters(t[i..])
    ensures Letters(Scan(m, g, t[..i], t[i..])) == Letters(t[i..]) ==> Quiet(m, g, t, i)
    decreases |t| - i
  {
    hide Letters, Scan;
    if i == |t| {
      ScanOfNothing(m, g, t);
    } else {
      var k := StepLen(m, t[i..]);
      ScanLosesLetters(m, g, t, i + k);
      StepLosesLetters(m, g, t, i, k);
      assert Matches(m, t[i..]) ==> Letters(t[i..][..k]) > 0;
    }
  }
}
