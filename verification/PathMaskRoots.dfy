/**
 Home roots in a text, in any spelling of their slashes, and what becomes of each of them: a root
 that stands at a boundary is marked, the marks are carried through the passes, and what is marked
 in the end is what the masked text shows.
 */
module PathMaskRoots {
  import opened Sequences
  import opened PathMask
  import opened PathMaskScan

  // ----- roots --------------------------------------------------------------------------

  /** Once its slashes are converted, s starts with a match of the pattern. */
  predicate RootAt(p: Pattern, s: string) { Head(p, Slashes(s)) > 0 }

  /** Offset of the user name in that root. */
  function RootLen(p: Pattern, s: string): (h: nat)
    ensures RootAt(p, s) <==> h > 0
  {
    Head(p, Slashes(s))
  }

  lemma SlashRunIsSlashes(s: string)
    ensures forall j :: 0 <= j < SlashRun(s) ==> IsSlash(s[j])
    ensures SlashRun(s) < |s| ==> !IsSlash(s[SlashRun(s)])
  {
    if s != [] && IsSlash(s[0]) {
      SlashRunIsSlashes(s[1..]);
      forall j | 0 <= j < SlashRun(s)
        ensures IsSlash(s[j])
      {
        assert j > 0 ==> s[j] == s[1..][j - 1];
      }
    }
  }

  lemma {:induction false} SlashRunIsLocal(s: string, u: string, n: nat)
    requires n == SlashRun(s) < |s| && n < |u| && u[..n + 1] == s[..n + 1]
    ensures SlashRun(u) == n
  {
    assert u[0] == u[..n + 1][0] == s[..n + 1][0] == s[0];
    if n > 0 {
      assert u[1..][..n] == u[..n + 1][1..] && s[1..][..n] == s[..n + 1][1..];
      SlashRunIsLocal(s[1..], u[1..], n - 1);
    }
  }

  lemma PieceOfPrefix(s: string, u: string, n: nat, a: nat, b: nat)
    requires a <= b <= n <= |s| && n <= |u| && u[..n] == s[..n]
    ensures u[a..][..b - a] == s[a..][..b - a]
  {
    assert u[a..][..b - a] == u[..n][a..b] == s[..n][a..b] == s[a..][..b - a];
  }

  lemma StartsWithIsLocal(s: string, u: string, word: string)
    requires |word| <= |s| && |word| <= |u| && u[..|word|] == s[..|word|]
    ensures StartsWith(u, word) <==> StartsWith(s, word)
  {
  }

  /** Where the parts of a drive root begin and end. */
  lemma DriveParts(s: string)
    requires DriveHead(s) > 0
    ensures var h, a := DriveHead(s), 2 + SlashRun(s[2..]);
      && 2 < a && a + 5 < h < |s| && IsLetter(s[0]) && s[1] == ':'
      && StartsWith(s[a..], "users") && SlashRun(s[a + 5..]) == h - a - 5 && IsName(Drive, s[h])
  {
  }

  lemma DrivePartsGive(s: string, a: nat, h: nat)
    requires |s| > h > a + 5 && a > 2 && IsLetter(s[0]) && s[1] == ':'
    requires SlashRun(s[2..]) == a - 2 && StartsWith(s[a..], "users")
    requires SlashRun(s[a + 5..]) == h - a - 5 && IsName(Drive, s[h])
    ensures DriveHead(s) == h
  {
  }

  lemma DriveHeadIsLocal(s: string, u: string, h: nat)
    requires h == DriveHead(s) > 0 && h < |u| && u[..h + 1] == s[..h + 1]
    ensures DriveHead(u) == h
  {
    var a := 2 + SlashRun(s[2..]);
    DriveParts(s);
    assert forall j :: 0 <= j <= h ==> u[..h + 1][j] == u[j] && s[..h + 1][j] == s[j];
    PieceOfPrefix(s, u, h + 1, 2, a + 1);
    SlashRunIsLocal(s[2..], u[2..], a - 2);
    PieceOfPrefix(s, u, h + 1, a, a + 5);
    StartsWithIsLocal(s[a..], u[a..], "users");
    PieceOfPrefix(s, u, h + 1, a + 5, h + 1);
    SlashRunIsLocal(s[a + 5..], u[a + 5..], h - a - 5);
    DrivePartsGive(u, a, h);
  }

  lemma HeadIsLocal(p: Pattern, s: string, u: string)
    requires Head(p, s) > 0 && Head(p, s) < |u| && u[..Head(p, s) + 1] == s[..Head(p, s) + 1]
    ensures Head(p, u) == Head(p, s)
  {
    var h := Head(p, s);
    if p == Drive {
      DriveHeadIsLocal(s, u, h);
    } else {
      assert u[..h] == u[..h + 1][..h] == s[..h + 1][..h] == s[..h];
      assert u[h] == u[..h + 1][h] == s[..h + 1][h] == s[h];
    }
  }

  lemma SlashesPrefix(s: string, n: nat)
    requires n <= |s|
    ensures Slashes(s)[..n] == Slashes(s[..n])
  {
  }

  lemma SlashesSuffix(s: string, n: nat)
    requires n <= |s|
    ensures Slashes(s)[n..] == Slashes(s[n..])
  {
  }

  /** A root is decided by its characters up to the first of the user name. */
  lemma RootIsLocal(p: Pattern, s: string, u: string)
    requires RootAt(p, s) && RootLen(p, s) < |u| && u[..RootLen(p, s) + 1] == s[..RootLen(p, s) + 1]
    ensures RootAt(p, u) && RootLen(p, u) == RootLen(p, s)
  {
    var h := RootLen(p, s);
    SlashesPrefix(s, h + 1);
    SlashesPrefix(u, h + 1);
    HeadIsLocal(p, Slashes(s), Slashes(u));
  }

  /** The characters before the user name: letters, slashes and the colon of a drive. */
  lemma DriveHeadShape(s: string, j: nat)
    requires DriveHead(s) > j
    ensures IsLetter(s[j]) || IsSlash(s[j]) || (j == 1 && s[j] == ':')
    ensures IsSlash(s[DriveHead(s) - 1])
  {
    var h, a := DriveHead(s), 2 + SlashRun(s[2..]);
    DriveParts(s);
    SlashRunIsSlashes(s[2..]);
    SlashRunIsSlashes(s[a + 5..]);
    assert s[h - 1] == s[a + 5..][h - 1 - a - 5];
    if 2 <= j < a {
      assert s[j] == s[2..][j - 2];
    } else if a <= j < a + 5 {
      assert Lower(s[a..][..5])[j - a] == LowerChar(s[j]) == "users"[j - a];
    } else if a + 5 <= j {
      assert s[j] == s[a + 5..][j - a - 5];
    }
  }

  lemma PosixHeadShape(p: Pattern, s: string, j: nat)
    requires p != Drive && Head(p, s) > j
    ensures IsLetter(s[j]) || IsSlash(s[j])
    ensures IsSlash(s[Head(p, s) - 1])
  {
    hide NameRun;
    var h := Head(p, s);
    assert Lower(s[..h])[j] == LowerChar(s[j]) == WordOf(p)[j];
    assert Lower(s[..h])[h - 1] == LowerChar(s[h - 1]) == WordOf(p)[h - 1];
  }

  /** The shape of a root in its slashed form. */
  lemma HeadShape(p: Pattern, u: string, j: nat)
    requires Head(p, u) > j
    ensures IsLetter(u[j]) || IsSlash(u[j]) || (p == Drive && j == 1 && u[j] == ':')
    ensures IsSlash(u[Head(p, u) - 1])
    ensures p == Drive ==> Head(p, u) > 2 && IsSlash(u[2])
  {
    if p == Drive {
      DriveHeadShape(u, j);
      DriveParts(u);
      SlashRunIsSlashes(u[2..]);
      assert u[2] == u[2..][0];
    } else {
      PosixHeadShape(p, u, j);
    }
  }

  lemma PlainChars(c: char)
    ensures IsLetter(c) || IsSlash(c) ==> c != '~' && !IsBoundary(c)
  {
  }

  lemma RootShape(p: Pattern, s: string, j: nat)
    requires RootAt(p, s) && j < RootLen(p, s)
    ensures RootLen(p, s) < |s| && s[j] != '~'
    ensures IsBoundary(s[j]) ==> p == Drive && j == 1
    ensures !IsBoundary(s[RootLen(p, s) - 1])
    ensures p == Drive ==> RootLen(p, s) > 2 && IsSlash(s[2])
  {
    var u, h := Slashes(s), RootLen(p, s);
    HeadShape(p, u, j);
    assert u[j] == Slashed(s[j]) && u[h - 1] == Slashed(s[h - 1]);
    assert |u| > 2 ==> u[2] == Slashed(s[2]);
    PlainChars(s[j]);
    PlainChars(s[h - 1]);
  }

  // ----- marks --------------------------------------------------------------------------

  /** For each character, whether a root starts there, at a boundary; `b` says whether s itself starts at one. */
  function Marks(p: Pattern, b: bool, s: string): (marks: seq<bool>)
    ensures |marks| == |s|
    decreases |s|
  {
    if s == [] then [] else [b && RootAt(p, s)] + Marks(p, IsBoundary(s[0]), s[1..])
  }

  lemma {:induction false} MarkAt(p: Pattern, b: bool, s: string, i: nat)
    requires i < |s|
    ensures Marks(p, b, s)[i] == ((if i == 0 then b else IsBoundary(s[i - 1])) && RootAt(p, s[i..]))
    decreases |s|
  {
    hide RootAt;
    if i == 0 {
      assert s[0..] == s;
    } else {
      MarkAt(p, IsBoundary(s[0]), s[1..], i - 1);
      assert s[i..] == s[1..][i - 1..];
    }
  }

  /** A root of a drive that is copied from i on, but for a match right after its colon, which is replaced. */
  predicate IsCut(p: Pattern, m: string -> nat, g: string -> bool, t: string, i: nat, skip: nat)
    requires i < |t|
  {
    p == Drive && i + 2 <= |t|
    && Replaced(m, g, t, i + 2, NextSkip(m, t, i + 1, NextSkip(m, t, i, skip)))
  }

  /**
   The marks of the scan's output, from the marks of its input. A mark goes with the match that
   replaces its character; it is lost when the match just before is replaced, because a tilde is
   no boundary; and it is lost with a drive root that is cut. `r` says whether the previous
   character was copied.
   */
  function Carried(p: Pattern, m: string -> nat, g: string -> bool, t: string, i: nat,
                   skip: nat, r: bool, marks: seq<bool>)
    : (after: seq<bool>)
    requires i <= |t| && |marks| == |t|
    ensures |after| == |Walk(m, g, t, i, skip)|
    decreases |t| - i
  {
    if i == |t| then []
    else if Replaced(m, g, t, i, skip) then [false] + Carried(p, m, g, t, i + m(t[i..]), 0, false, marks)
    else
      [marks[i] && r && !IsCut(p, m, g, t, i, skip)]
      + Carried(p, m, g, t, i + 1, NextSkip(m, t, i, skip), true, marks)
  }

  lemma RootHasNoTilde(p: Pattern, s: string)
    requires RootAt(p, s)
    ensures RootLen(p, s) < |s| && forall j :: 0 <= j < RootLen(p, s) ==> s[j] != '~'
  {
    hide RootAt, RootLen;
    RootShape(p, s, 0);
    forall j | 0 <= j < RootLen(p, s)
      ensures s[j] != '~'
    {
      RootShape(p, s, j);
    }
  }

  /** A root in the output was copied as a whole, so it stood in the input and was not cut. */
  lemma RootWasCopied(p: Pattern, m: string -> nat, g: string -> bool, t: string, i: nat, skip: nat)
    requires AsksBoundary(g) && i < |t| && !Replaced(m, g, t, i, skip)
    requires RootAt(p, Walk(m, g, t, i, skip))
    ensures RootAt(p, t[i..]) && !IsCut(p, m, g, t, i, skip)
  {
    hide RootAt, RootLen, Walk, Replaced, AsksBoundary, IsCut;
    var out := Walk(m, g, t, i, skip);
    var h := RootLen(p, out);
    RootShape(p, out, 0);
    RootHasNoTilde(p, out);
    CopiedPrefix(m, g, t, i, skip, h);
    assert t[i..][..h + 1] == t[i..i + h + 1];
    RootIsLocal(p, out, t[i..]);
    if IsCut(p, m, g, t, i, skip) {
      CutIsDrive(p, m, g, t, i, skip);
      RootShape(p, out, 2);
      RootShape(p, t[i..], 0);
      CutShowsTilde(m, g, t, i, skip);
    }
  }

  lemma CutIsDrive(p: Pattern, m: string -> nat, g: string -> bool, t: string, i: nat, skip: nat)
    requires i < |t| && IsCut(p, m, g, t, i, skip)
    ensures p == Drive && i + 2 <= |t|
  {
  }

  lemma CutShowsTilde(m: string -> nat, g: string -> bool, t: string, i: nat, skip: nat)
    requires AsksBoundary(g) && i + 2 <= |t| && !Replaced(m, g, t, i, skip) && !IsBoundary(t[i])
    requires IsCut(Drive, m, g, t, i, skip)
    ensures |Walk(m, g, t, i, skip)| > 2 && Walk(m, g, t, i, skip)[2] == '~'
  {
    var next := NextSkip(m, t, i, skip);
    NoBoundaryNoReplacement(m, g, t, i + 1, next);
    assert Walk(m, g, t, i, skip) == [t[i]] + Walk(m, g, t, i + 1, next);
    assert Walk(m, g, t, i + 1, next) == [t[i + 1]] + Walk(m, g, t, i + 2, NextSkip(m, t, i + 1, next));
  }

  lemma RootInterior(p: Pattern, t: string, i: nat, k: nat)
    requires i <= k < |t| && RootAt(p, t[i..]) && k < i + RootLen(p, t[i..])
    ensures IsBoundary(t[k]) ==> p == Drive && k == i + 1
  {
    hide RootAt, RootLen;
    RootShape(p, t[i..], k - i);
    assert t[i..][k - i] == t[k];
  }

  lemma PosixRootIsCopied(p: Pattern, m: string -> nat, g: string -> bool, t: string, i: nat, skip: nat, h: nat)
    requires AsksBoundary(g) && i < |t| && !Replaced(m, g, t, i, skip)
    requires p != Drive && RootAt(p, t[i..]) && h == RootLen(p, t[i..])
    ensures i + h < |t| && h < |Walk(m, g, t, i, skip)|
    ensures Walk(m, g, t, i, skip)[..h + 1] == t[i..i + h + 1]
  {
    RootShape(p, t[i..], 0);
    forall k | i <= k < i + h
      ensures !IsBoundary(t[k])
    {
      RootInterior(p, t, i, k);
    }
    CopyRun(m, g, t, i, skip, h + 1);
  }

  lemma DriveRootIsCopied(m: string -> nat, g: string -> bool, t: string, i: nat, skip: nat, h: nat)
    requires AsksBoundary(g) && i < |t| && !Replaced(m, g, t, i, skip)
    requires RootAt(Drive, t[i..]) && !IsCut(Drive, m, g, t, i, skip) && h == RootLen(Drive, t[i..])
    ensures i + h < |t| && h < |Walk(m, g, t, i, skip)|
    ensures Walk(m, g, t, i, skip)[..h + 1] == t[i..i + h + 1]
  {
    hide RootAt, RootLen;
    var next := NextSkip(m, t, i, skip);
    RootShape(Drive, t[i..], 0);
    RootInterior(Drive, t, i, i);
    NoBoundaryNoReplacement(m, g, t, i + 1, next);
    forall k | i + 2 <= k < i + h
      ensures !IsBoundary(t[k])
    {
      RootInterior(Drive, t, i, k);
    }
    CopyRun(m, g, t, i + 2, NextSkip(m, t, i + 1, next), h - 1);
    TwoThenRun(m, g, t, i, skip, h - 1);
  }

  /** A root that is not cut is copied as a whole if its first character is. */
  lemma RootIsCopied(p: Pattern, m: string -> nat, g: string -> bool, t: string, i: nat, skip: nat)
    requires AsksBoundary(g) && i < |t| && !Replaced(m, g, t, i, skip)
    requires RootAt(p, t[i..]) && !IsCut(p, m, g, t, i, skip)
    ensures RootAt(p, Walk(m, g, t, i, skip))
  {
    hide RootAt, RootLen, IsCut, Walk;
    var h := RootLen(p, t[i..]);
    if p == Drive {
      DriveRootIsCopied(m, g, t, i, skip, h);
    } else {
      PosixRootIsCopied(p, m, g, t, i, skip, h);
    }
    assert t[i..][..h + 1] == t[i..i + h + 1];
    RootIsLocal(p, t[i..], Walk(m, g, t, i, skip));
  }

  lemma TwoThenRun(m: string -> nat, g: string -> bool, t: string, i: nat, skip: nat, n: nat)
    requires i + 2 + n <= |t| && !Replaced(m, g, t, i, skip)
    requires !Replaced(m, g, t, i + 1, NextSkip(m, t, i, skip))
    requires var rest := Walk(m, g, t, i + 2, NextSkip(m, t, i + 1, NextSkip(m, t, i, skip)));
      n <= |rest| && rest[..n] == t[i + 2..i + 2 + n]
    ensures var out := Walk(m, g, t, i, skip); n + 2 <= |out| && out[..n + 2] == t[i..i + n + 2]
  {
    var next := NextSkip(m, t, i, skip);
    var rest := Walk(m, g, t, i + 2, NextSkip(m, t, i + 1, next));
    assert Walk(m, g, t, i, skip) == [t[i]] + ([t[i + 1]] + rest);
    assert t[i..i + n + 2] == [t[i]] + ([t[i + 1]] + t[i + 2..i + 2 + n]);
    assert ([t[i]] + ([t[i + 1]] + rest))[..n + 2] == [t[i]] + ([t[i + 1]] + rest[..n]);
  }

  lemma RootAfterCopy(p: Pattern, m: string -> nat, g: string -> bool, t: string, i: nat, skip: nat)
    requires AsksBoundary(g) && i < |t| && !Replaced(m, g, t, i, skip)
    ensures RootAt(p, Walk(m, g, t, i, skip)) <==> RootAt(p, t[i..]) && !IsCut(p, m, g, t, i, skip)
  {
    if RootAt(p, Walk(m, g, t, i, skip)) {
      RootWasCopied(p, m, g, t, i, skip);
    } else if RootAt(p, t[i..]) && !IsCut(p, m, g, t, i, skip) {
      RootIsCopied(p, m, g, t, i, skip);
    }
  }

  lemma BoundaryAfter(t: string, i: nat)
    requires 0 < i <= |t|
    ensures AtBoundary(t[..i]) == IsBoundary(t[i - 1])
  {
  }

  lemma NoRootAtTilde(p: Pattern, rest: string)
    ensures !RootAt(p, "~" + rest)
  {
    if RootAt(p, "~" + rest) {
      RootShape(p, "~" + rest, 0);
    }
  }

  lemma MarksCons(p: Pattern, b: bool, c: char, rest: string)
    ensures Marks(p, b, [c] + rest) == [b && RootAt(p, [c] + rest)] + Marks(p, IsBoundary(c), rest)
  {
    assert ([c] + rest)[1..] == rest;
  }

  lemma MarkOf(p: Pattern, t: string, i: nat)
    requires i < |t|
    ensures Marks(p, true, t)[i] == (AtBoundary(t[..i]) && RootAt(p, t[i..]))
  {
    hide RootAt;
    MarkAt(p, true, t, i);
    if i > 0 {
      BoundaryAfter(t, i);
    }
  }

  lemma ReplacedMarks(p: Pattern, m: string -> nat, g: string -> bool, t: string, i: nat, skip: nat, r: bool)
    requires i < |t| && Replaced(m, g, t, i, skip)
    requires Marks(p, false, Walk(m, g, t, i + m(t[i..]), 0))
          == Carried(p, m, g, t, i + m(t[i..]), 0, false, Marks(p, true, t))
    ensures Marks(p, r && AtBoundary(t[..i]), Walk(m, g, t, i, skip))
         == Carried(p, m, g, t, i, skip, r, Marks(p, true, t))
  {
    hide RootAt, AtBoundary, IsCut, Marks;
    var rest := Walk(m, g, t, i + m(t[i..]), 0);
    NoRootAtTilde(p, rest);
    MarksCons(p, r && AtBoundary(t[..i]), '~', rest);
  }

  lemma CopiedMarks(p: Pattern, m: string -> nat, g: string -> bool, t: string, i: nat, skip: nat, r: bool)
    requires AsksBoundary(g) && i < |t| && !Replaced(m, g, t, i, skip)
    requires var next := NextSkip(m, t, i, skip);
      Marks(p, IsBoundary(t[i]), Walk(m, g, t, i + 1, next))
      == Carried(p, m, g, t, i + 1, next, true, Marks(p, true, t))
    ensures Marks(p, r && AtBoundary(t[..i]), Walk(m, g, t, i, skip))
         == Carried(p, m, g, t, i, skip, r, Marks(p, true, t))
  {
    hide RootAt, AtBoundary, IsCut, Marks;
    MarksCons(p, r && AtBoundary(t[..i]), t[i], Walk(m, g, t, i + 1, NextSkip(m, t, i, skip)));
    RootAfterCopy(p, m, g, t, i, skip);
    MarkOf(p, t, i);
  }

  /** The marks of what a scan puts out are the marks of what it was given, carried through it. */
  lemma {:induction false} MarksAreCarried(p: Pattern, m: string -> nat, g: string -> bool, t: string, i: nat,
                                           skip: nat, r: bool)
    requires AsksBoundary(g) && i <= |t|
    ensures Marks(p, r && AtBoundary(t[..i]), Walk(m, g, t, i, skip))
         == Carried(p, m, g, t, i, skip, r, Marks(p, true, t))
    decreases |t| - i
  {
    hide RootAt, AtBoundary, IsCut, Marks, Carried, Walk, Replaced, NextSkip, AsksBoundary, IsBoundary;
    if i == |t| {
      NothingIsMarked(p, m, g, t, skip, r);
    } else if Replaced(m, g, t, i, skip) {
      ReplacedAdvances(m, g, t, i, skip);
      MarksAreCarried(p, m, g, t, i + m(t[i..]), 0, false);
      ReplacedMarks(p, m, g, t, i, skip, r);
    } else {
      MarksAreCarried(p, m, g, t, i + 1, NextSkip(m, t, i, skip), true);
      BoundaryAfter(t, i + 1);
      CopiedMarks(p, m, g, t, i, skip, r);
    }
  }

  lemma ReplacedAdvances(m: string -> nat, g: string -> bool, t: string, i: nat, skip: nat)
    requires i <= |t| && Replaced(m, g, t, i, skip)
    ensures 0 < m(t[i..]) <= |t| - i
  {
  }

  lemma NothingIsMarked(p: Pattern, m: string -> nat, g: string -> bool, t: string, skip: nat, r: bool)
    ensures Marks(p, r && AtBoundary(t[..|t|]), Walk(m, g, t, |t|, skip))
         == Carried(p, m, g, t, |t|, skip, r, Marks(p, true, t)) == []
  {
  }

  // ----- what survives the three passes -------------------------------------------------

  lemma PassLength(q: Pattern, t: string, marks: seq<bool>)
    requires |marks| == |t|
    ensures |Walk(Matcher(q), Unguarded, t, 0, 0)| == |Pass(q, t)|
  {
    PassIsWalk(q, t);
  }

  /** Marks carried through one pass. */
  function Through(p: Pattern, q: Pattern, t: string, marks: seq<bool>): (after: seq<bool>)
    requires |marks| == |t|
    ensures |after| == |Pass(q, t)|
  {
    PassLength(q, t, marks);
    Carried(p, Matcher(q), Unguarded, t, 0, 0, true, marks)
  }

  function Passed(raw: string): string { Pass(Home, Pass(Users, Pass(Drive, raw))) }

  /** The roots of raw, carried through the three passes in their order. */
  function Survivors(p: Pattern, raw: string): seq<bool> {
    var t1 := Pass(Drive, raw);
    var t2 := Pass(Users, t1);
    Through(p, Home, t2, Through(p, Users, t1, Through(p, Drive, raw, Marks(p, true, raw))))
  }

  /** Some root of raw is copied by all three passes. */
  predicate Survives(p: Pattern, raw: string) { true in Survivors(p, raw) }

  lemma PassCarriesMarks(p: Pattern, q: Pattern, t: string)
    ensures Marks(p, true, Pass(q, t)) == Through(p, q, t, Marks(p, true, t))
  {
    GuardAsksBoundary();
    PassIsWalk(q, t);
    MarksAreCarried(p, Matcher(q), Unguarded, t, 0, 0, true);
    assert AtBoundary(t[..0]);
  }

  lemma SurvivorsAreMarks(p: Pattern, raw: string)
    ensures Marks(p, true, Passed(raw)) == Survivors(p, raw)
  {
    var t1 := Pass(Drive, raw);
    PassCarriesMarks(p, Drive, raw);
    PassCarriesMarks(p, Users, t1);
    PassCarriesMarks(p, Home, Pass(Users, t1));
  }

  /** What is not marked before a scan is not marked after it. */
  lemma {:induction false} NothingCarried(p: Pattern, m: string -> nat, g: string -> bool, t: string, i: nat,
                                          skip: nat, r: bool, marks: seq<bool>)
    requires i <= |t| && |marks| == |t| && true !in marks
    ensures true !in Carried(p, m, g, t, i, skip, r, marks)
    decreases |t| - i
  {
    hide IsCut, Walk;
    if i < |t| {
      if Replaced(m, g, t, i, skip) {
        NothingCarried(p, m, g, t, i + m(t[i..]), 0, false, marks);
      } else {
        NothingCarried(p, m, g, t, i + 1, NextSkip(m, t, i, skip), true, marks);
      }
    }
  }

  lemma NothingThrough(p: Pattern, q: Pattern, t: string, marks: seq<bool>)
    requires |marks| == |t| && true !in marks
    ensures true !in Through(p, q, t, marks)
  {
    NothingCarried(p, Matcher(q), Unguarded, t, 0, 0, true, marks);
  }

  // ----- normalisation keeps roots ------------------------------------------------------

  /** A root of s stands at a boundary. */
  predicate Shown(p: Pattern, b: bool, s: string)
    decreases |s|
  {
    s != [] && ((b && RootAt(p, s)) || Shown(p, IsBoundary(s[0]), s[1..]))
  }

  lemma {:induction false} ShownIsMarked(p: Pattern, b: bool, s: string)
    ensures Shown(p, b, s) <==> true in Marks(p, b, s)
    decreases |s|
  {
    hide RootAt;
    if s != [] {
      ShownIsMarked(p, IsBoundary(s[0]), s[1..]);
    }
  }

  /** The same text up to the first tilde, and both with one there or both without. */
  predicate Agree(s: string, u: string) {
    if s == [] || u == [] then s == u else s[0] == u[0] && (s[0] == '~' || Agree(s[1..], u[1..]))
  }

  lemma {:induction false} AgreeSymmetric(s: string, u: string)
    requires Agree(s, u)
    ensures Agree(u, s)
  {
    if s != [] && s[0] != '~' {
      AgreeSymmetric(s[1..], u[1..]);
    }
  }

  lemma {:induction false} AgreeingPrefix(s: string, u: string, k: nat)
    requires Agree(s, u) && k < |s| && forall j :: 0 <= j < k ==> s[j] != '~'
    ensures k < |u| && u[..k + 1] == s[..k + 1]
  {
    if k == 0 {
      assert s[..1] == [s[0]] == u[..1];
    } else {
      assert s[0] != '~';
      assert forall j :: 0 <= j < k - 1 ==> s[1..][j] == s[j + 1];
      AgreeingPrefix(s[1..], u[1..], k - 1);
      assert s[..k + 1] == [s[0]] + s[1..][..k] && u[..k + 1] == [u[0]] + u[1..][..k];
    }
  }

  lemma AgreeingRoot(p: Pattern, s: string, u: string)
    requires Agree(s, u) && RootAt(p, s)
    ensures RootAt(p, u)
  {
    hide RootAt, RootLen, Agree;
    var h := RootLen(p, s);
    RootShape(p, s, 0);
    forall j | 0 <= j < h
      ensures s[j] != '~'
    {
      RootShape(p, s, j);
    }
    AgreeingPrefix(s, u, h);
    RootIsLocal(p, s, u);
  }

  lemma SameRoots(p: Pattern, s: string, u: string)
    requires Agree(s, u)
    ensures RootAt(p, s) <==> RootAt(p, u)
  {
    hide RootAt, Agree;
    AgreeSymmetric(s, u);
    if RootAt(p, s) {
      AgreeingRoot(p, s, u);
    }
    if RootAt(p, u) {
      AgreeingRoot(p, u, s);
    }
  }

  lemma {:induction false} TildesAgree(s: string)
    ensures Agree(s, Tildes(s))
  {
    if s != [] && s[0] != '~' {
      TildesAgree(s[1..]);
      assert Tildes(s)[1..] == Tildes(s[1..]);
    }
  }

  lemma {:induction false} CollapseAgrees(s: string)
    ensures Agree(s, Collapse(s))
    decreases |s|
  {
    if s != [] && s[0] != '~' {
      CollapseAgrees(s[1..]);
      assert Collapse(s)[1..] == Collapse(s[1..]);
    }
  }

  lemma ShownCons(p: Pattern, b: bool, c: char, rest: string)
    ensures Shown(p, b, [c] + rest) <==> (b && RootAt(p, [c] + rest)) || Shown(p, IsBoundary(c), rest)
  {
    assert ([c] + rest)[1..] == rest;
  }

  lemma SlashesCons(s: string)
    requires s != []
    ensures Slashes(s) == [Slashed(s[0])] + Slashes(s[1..]) && IsBoundary(Slashed(s[0])) == IsBoundary(s[0])
  {
  }

  lemma SlashesTwice(s: string)
    ensures Slashes(Slashes(s)) == Slashes(s)
  {
  }

  lemma {:induction false} SlashesShow(p: Pattern, b: bool, s: string)
    ensures Shown(p, b, Slashes(s)) <==> Shown(p, b, s)
    decreases |s|
  {
    if s != [] {
      SlashesShow(p, IsBoundary(s[0]), s[1..]);
      SlashesTwice(s);
      assert RootAt(p, Slashes(s)) == RootAt(p, s);
      SlashesCons(s);
      ShownCons(p, b, Slashed(s[0]), Slashes(s[1..]));
    }
  }

  lemma {:induction false} TildesShow(p: Pattern, b: bool, s: string)
    ensures Shown(p, b, Tildes(s)) <==> Shown(p, b, s)
    decreases |s|
  {
    hide RootAt;
    if s != [] {
      var rest := Tildes(s[1..]);
      TildesShow(p, IsBoundary(s[0]), s[1..]);
      TildesAgree(s);
      SameRoots(p, s, Tildes(s));
      if Tildes(s) == "~/" + rest {
        assert "~/" + rest == ['~'] + (['/'] + rest);
        ShownCons(p, b, '~', ['/'] + rest);
        ShownCons(p, false, '/', rest);
      } else {
        ShownCons(p, b, s[0], rest);
      }
    }
  }

  lemma {:induction false} DropSlashesShow(p: Pattern, s: string)
    ensures Shown(p, false, DropSlashes(s)) <==> Shown(p, false, s)
    decreases |s|
  {
    hide RootAt;
    if s != [] && s[0] == '/' {
      DropSlashesShow(p, s[1..]);
    }
  }

  lemma {:induction false} CollapseShow(p: Pattern, b: bool, s: string)
    ensures Shown(p, b, Collapse(s)) <==> Shown(p, b, s)
    decreases |s|
  {
    hide RootAt;
    if s != [] {
      CollapseAgrees(s);
      SameRoots(p, s, Collapse(s));
      if s[0] == '~' && |s| > 1 && s[1] == '/' {
        var rest := DropSlashes(s[1..]);
        CollapseShow(p, false, rest);
        DropSlashesShow(p, s[1..]);
        assert Collapse(s) == ['~'] + (['/'] + Collapse(rest));
        ShownCons(p, b, '~', ['/'] + Collapse(rest));
        ShownCons(p, false, '/', Collapse(rest));
      } else {
        CollapseShow(p, IsBoundary(s[0]), s[1..]);
        ShownCons(p, b, s[0], Collapse(s[1..]));
      }
    }
  }

  /** The rewritten text shows a root exactly when some root of raw is copied by all three passes. */
  lemma BodyShowsSurvivors(p: Pattern, raw: string)
    ensures Shown(p, true, Body(raw)) <==> Survives(p, raw)
  {
    hide Shown, RootAt;
    var out := Passed(raw);
    SurvivorsAreMarks(p, raw);
    ShownIsMarked(p, true, out);
    SlashesShow(p, true, out);
    TildesShow(p, true, Slashes(out));
    CollapseShow(p, true, Tildes(Slashes(out)));
  }
}
