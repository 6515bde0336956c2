/**
 The masker's promise in full: a home path of any spelling, with any plain user name, at the start
 or after each character that may precede a path and before each one that may follow it, becomes
 a tilde; after any other character it stays. All characters are written out.
 */
module PathMaskHomes {
  import opened Sequences
  import opened PathMask
  import opened PathMaskExamples
  import opened PathMaskLeaks
  import opened PathMaskRegex
  import opened PathMaskRoots
  import opened PathMaskScan
  import opened PathMaskWords

  datatype Spelling = OfUsers | OfHome | OfDrive(drive: char, a: string, b: string)

  predicate IsSpelling(sp: Spelling) {
    sp.OfDrive? ==> IsAz(sp.drive) && IsSlashes(sp.a) && IsSlashes(sp.b)
  }

  function Path(sp: Spelling, name: string): string {
    match sp
    case OfUsers => "/Users/" + name
    case OfHome => "/home/" + name
    case OfDrive(drive, a, b) => [drive, ':'] + (a + ("Users" + (b + name)))
  }

  function PatternOf(sp: Spelling): Pattern {
    match sp case OfUsers => Users case OfHome => Home case OfDrive(_, _, _) => Drive
  }

  /** Backslashes turned into slashes. */
  function Turned(s: string): string {
    seq(|s|, i requires 0 <= i < |s| => if s[i] == '\\' then '/' else s[i])
  }

  function Unslashed(s: string): string {
    if s != [] && s[0] in "/\\" then Unslashed(s[1..]) else s
  }

  /** What follows the tilde in place of what followed the name. */
  function After(tail: string): string {
    if tail == [] then []
    else if tail[0] in "/\\" then "/" + Turned(Unslashed(tail))
    else if tail[0] in BLANKS then Turned(tail)
    else "/" + Turned(tail)
  }

  /** Free text that ends where a path may begin, and holds no other root. */
  predicate MayPrecede(pre: string) {
    && (pre == [] || OpensPath(pre[|pre| - 1]))
    && (forall c :: c in pre ==> c !in "/\\~")
    && forall i :: 0 <= i < |pre| && pre[i] == ':' ==> i == |pre| - 1 && (i == 0 || !IsAz(pre[i - 1]))
  }

  /** Nothing, or what ends the name and then any text in which no slash stands where a path may begin. */
  predicate MayFollow(sp: Spelling, name: string, tail: string)
    requires name != []
  {
    && (tail != [] ==> EndsName(tail[0]) || (sp.OfDrive? && tail[0] == '\\'))
    && (forall c :: c in tail ==> c !in "~:")
    && forall i :: 0 <= i < |tail| && tail[i] == '/' ==> !OpensPath((name + tail)[|name| + i - 1])
  }

  // ----- passes that leave a text alone -------------------------------------------------

  /** Only a slash can start a match of a POSIX pattern, and the letter after it is that of its word. */
  lemma PosixSecond(p: Pattern, t: string, j: nat)
    requires p != Drive && j <= |t| && MatchLen(p, t[j..]) > 0
    ensures j + 1 < |t| && t[j] == '/' && LowerChar(t[j + 1]) == LetterOf(p)
  {
    var w, s := WordOf(p), t[j..];
    assert Lower(s[..|w|])[0] == LowerChar(s[0]) == w[0];
    assert Lower(s[..|w|])[1] == LowerChar(s[1]) == w[1];
  }

  function LetterOf(p: Pattern): char { if p == Users then 'u' else 'h' }

  lemma DriveSecond(t: string, j: nat)
    requires j <= |t| && MatchLen(Drive, t[j..]) > 0
    ensures j + 1 < |t| && IsAz(t[j]) && t[j + 1] == ':'
  {
    DriveParts(t[j..]);
    CharacterClasses(t[j]);
  }

  /** A pass changes nothing when every match in the text stands after a character that opens no path. */
  lemma SparedByPass(p: Pattern, t: string)
    requires forall j :: 0 <= j < |t| && MatchLen(p, t[j..]) > 0 ==> j > 0 && !OpensPath(t[j - 1])
    ensures Pass(p, t) == t
  {
    hide MatchLen, OpensPath;
    forall j | 0 <= j < |t|
      ensures !Replaces(p, t[..j], t[j..])
    {
      BoundaryIsRegex(t[..j]);
      assert j > 0 ==> t[..j][j - 1] == t[j - 1];
    }
    UnchangedByPass(p, t);
  }

  /** A slash that stands where no path may begin, or before another letter than that of the word. */
  predicate StartsNone(p: Pattern, t: string, j: nat)
    requires j < |t|
  {
    (j > 0 && !OpensPath(t[j - 1])) || (j + 1 < |t| && LowerChar(t[j + 1]) != LetterOf(p))
  }

  lemma PosixSpares(p: Pattern, t: string)
    requires p != Drive && forall j: nat :: j < |t| && t[j] == '/' ==> StartsNone(p, t, j)
    ensures Pass(p, t) == t
  {
    hide MatchLen, OpensPath;
    forall j | 0 <= j < |t| && MatchLen(p, t[j..]) > 0
      ensures j > 0 && !OpensPath(t[j - 1])
    {
      PosixSecond(p, t, j);
      assert StartsNone(p, t, j);
    }
    SparedByPass(p, t);
  }

  lemma DriveSpares(t: string)
    requires forall j :: 0 < j < |t| && t[j] == ':' ==> !IsAz(t[j - 1])
    ensures Pass(Drive, t) == t
  {
    hide MatchLen, OpensPath;
    forall j | 0 <= j < |t|
      ensures MatchLen(Drive, t[j..]) == 0
    {
      if MatchLen(Drive, t[j..]) > 0 {
        DriveSecond(t, j);
      }
    }
    SparedByPass(Drive, t);
  }

  // ----- a pass that replaces one match -------------------------------------------------

  lemma {:induction false} ScanUpTo(p: Pattern, t: string, i: nat, n: nat)
    requires i <= n <= |t| && forall j :: i <= j < n ==> MatchLen(p, t[j..]) == 0
    ensures Scan(Matcher(p), Unguarded, t[..i], t[i..]) == t[i..n] + Scan(Matcher(p), Unguarded, t[..n], t[n..])
    decreases n - i
  {
    hide MatchLen, Scan;
    if i < n {
      ScanStep(Matcher(p), Unguarded, t, i);
      ScanUpTo(p, t, i + 1, n);
      SliceCons(t, i, n);
      assert t[i..][..1] == [t[i]];
    }
  }

  lemma {:induction false} SparedIsQuiet(p: Pattern, t: string, i: nat)
    requires i <= |t|
    requires forall j :: i <= j < |t| && MatchLen(p, t[j..]) > 0 ==> j > 0 && !OpensPath(t[j - 1])
    ensures Quiet(Matcher(p), Unguarded, t, i)
    decreases |t| - i
  {
    hide MatchLen, OpensPath;
    if i < |t| {
      BoundaryIsRegex(t[..i]);
      assert i > 0 ==> t[..i][i - 1] == t[i - 1];
      SparedIsQuiet(p, t, i + StepLen(Matcher(p), t[i..]));
    }
  }

  lemma OneReplaced(p: Pattern, t: string, i: nat, k: nat)
    requires i < k <= |t| && MatchLen(p, t[i..]) == k - i && Unguarded(t[..i])
    requires forall j :: 0 <= j < i ==> MatchLen(p, t[j..]) == 0
    requires forall j :: k <= j < |t| && MatchLen(p, t[j..]) > 0 ==> j > 0 && !OpensPath(t[j - 1])
    ensures Pass(p, t) == t[..i] + "~" + t[k..]
  {
    hide MatchLen, Scan, Unguarded, OpensPath;
    ScanUpTo(p, t, 0, i);
    assert t[..0] == [] && t[0..] == t && t[0..i] == t[..i];
    ScanStep(Matcher(p), Unguarded, t, i);
    SparedIsQuiet(p, t, k);
    QuietScan(Matcher(p), Unguarded, t, k);
    assert t[..i] + ("~" + t[k..]) == t[..i] + "~" + t[k..];
  }

  lemma UrlHasSlash(pre: string)
    requires UrlContext(pre)
    ensures '/' in pre
  {
    UrlIsRegex(pre);
    var i: nat, j: nat :| UrlEnds(pre, i, j);
    assert pre[j + 1] == pre[j..j + 3][1] == '/';
  }

  lemma OpenIsUnguarded(pre: string)
    requires MayPrecede(pre)
    ensures Unguarded(pre)
  {
    if UrlContext(pre) {
      UrlHasSlash(pre);
    }
    BoundaryIsRegex(pre);
  }

  // ----- the three passes ---------------------------------------------------------------

  lemma TailEndsName(p: Pattern, tail: string)
    requires tail == [] || EndsName(tail[0]) || (p == Drive && tail[0] == '\\')
    ensures tail == [] || !IsName(p, tail[0])
  {
    if tail != [] {
      CharacterClasses(tail[0]);
    }
  }

  lemma DrivePathEnds(drive: char, a: string, b: string, name: string, tail: string)
    requires IsAz(drive) && IsSlashes(a) && IsSlashes(b) && PlainName(name)
    requires tail == [] || !IsName(Drive, tail[0])
    ensures var path := Path(OfDrive(drive, a, b), name); MatchLen(Drive, path + tail) == |path|
  {
    hide MatchLen, IsName, IsSlashes;
    PlainNameIsName(name);
    DrivePathMatch(drive, a, b, name, tail);
    assert Path(OfDrive(drive, a, b), name) + tail == DrivePath(drive, a, b, name + tail);
  }

  /** The match of a path whose name is followed by something that ends it. */
  lemma PathMatch(sp: Spelling, name: string, tail: string)
    requires IsSpelling(sp) && PlainName(name) && MayFollow(sp, name, tail)
    ensures MatchLen(PatternOf(sp), Path(sp, name) + tail) == |Path(sp, name)|
  {
    hide MatchLen, IsName, IsSlashes, EndsName, OpensPath, IsAz;
    PlainNameIsName(name);
    TailEndsName(PatternOf(sp), tail);
    match sp
    case OfUsers => PosixPathMatch(Users, "/Users/", name, tail);
    case OfHome => PosixPathMatch(Home, "/home/", name, tail);
    case OfDrive(drive, a, b) => DrivePathEnds(drive, a, b, name, tail);
  }

  lemma PosixPathMatch(p: Pattern, root: string, name: string, tail: string)
    requires (p == Users && root == "/Users/") || (p == Home && root == "/home/")
    requires name != [] && (forall c :: c in name ==> IsName(p, c)) && (tail == [] || !IsName(p, tail[0]))
    ensures MatchLen(p, root + name + tail) == |root| + |name|
  {
    var t, w := root + name + tail, |root|;
    assert t[..w] == root && t[w..] == name + tail && Lower(root) == WordOf(p);
    assert t[w] == name[0] && name[0] in name;
    NameRunOf(p, name, tail);
  }

  lemma NameIsNotEmpty(name: string)
    requires PlainName(name)
    ensures name != []
  {
  }

  lemma OwnPass(pre: string, sp: Spelling, name: string, tail: string)
    requires MayPrecede(pre) && IsSpelling(sp) && PlainName(name) && MayFollow(sp, name, tail)
    ensures Pass(PatternOf(sp), pre + Path(sp, name) + tail) == pre + "~" + tail
  {
    hide MatchLen, Unguarded, OpensPath, EndsName, IsSpelling, Path, MayFollow, PlainName;
    assert name != [] by { NameIsNotEmpty(name); }
    var p, path := PatternOf(sp), Path(sp, name);
    var t, i, k := pre + path + tail, |pre|, |pre| + |path|;
    assert t[..i] == pre && t[i..] == path + tail && t[k..] == tail;
    PathMatch(sp, name, tail);
    OpenIsUnguarded(pre);
    FirstOfPath(sp, name);
    forall j | 0 <= j < i
      ensures MatchLen(p, t[j..]) == 0
    {
      NoMatchBefore(p, pre, path + tail, j);
      assert pre + (path + tail) == t;
    }
    forall j | k <= j < |t| && MatchLen(p, t[j..]) > 0
      ensures j > 0 && !OpensPath(t[j - 1])
    {
      LastOfPath(sp, name);
      TailIsSpared(p, sp, name, pre + path, tail, j);
    }
    OneReplaced(p, t, i, k);
  }

  lemma NoMatchAfter(p: Pattern, t: string, j: nat)
    requires j < |t| && MatchLen(p, t[j..]) > 0
    ensures if p == Drive then j + 1 < |t| && t[j + 1] == ':' else t[j] == '/'
  {
    if p == Drive {
      DriveSecond(t, j);
    } else {
      PosixSecond(p, t, j);
    }
  }

  lemma TailIsSpared(p: Pattern, sp: Spelling, name: string, before: string, tail: string, j: nat)
    requires name != [] && MayFollow(sp, name, tail) && |before| <= j < |before + tail|
    requires |name| <= |before| && before[|before| - |name|..] == name
    requires MatchLen(p, (before + tail)[j..]) > 0
    ensures j > 0 && !OpensPath((before + tail)[j - 1])
  {
    hide MatchLen, OpensPath;
    var t, k := before + tail, |before|;
    NoMatchAfter(p, t, j);
    var n := if p == Drive then j + 1 else j;
    assert t[n] == tail[n - k] && tail[n - k] in tail;
    assert t[j - 1] == (name + tail)[|name| + j - k - 1] by {
      assert j == k ==> before[k - 1] == before[k - |name|..][|name| - 1];
    }
  }

  lemma FirstOfPath(sp: Spelling, name: string)
    requires IsSpelling(sp)
    ensures Path(sp, name) != [] && Path(sp, name)[0] == if sp.OfDrive? then sp.drive else '/'
    ensures sp.OfDrive? ==> Path(sp, name)[0] != ':'
  {
  }

  lemma LastOfPath(sp: Spelling, name: string)
    requires name != []
    ensures |Path(sp, name)| >= |name| && Path(sp, name)[|Path(sp, name)| - |name|..] == name
  {
    if sp.OfDrive? {
      var head := [sp.drive, ':'] + (sp.a + ("Users" + sp.b));
      assert Path(sp, name) == head + name;
    }
  }

  lemma NoMatchBefore(p: Pattern, pre: string, rest: string, j: nat)
    requires MayPrecede(pre) && j < |pre| && rest != [] && rest[0] != ':'
    ensures MatchLen(p, (pre + rest)[j..]) == 0
  {
    hide MatchLen, OpensPath;
    var t := pre + rest;
    if MatchLen(p, t[j..]) > 0 {
      assert pre[j] in pre && t[j] == pre[j];
      NoMatchAfter(p, t, j);
      if p == Drive {
        DriveSecond(t, j);
      }
    }
  }

  /** The passes before that of the path's own pattern leave the text alone. */
  lemma PassesBefore(pre: string, sp: Spelling, name: string, tail: string)
    requires MayPrecede(pre) && IsSpelling(sp) && PlainName(name) && MayFollow(sp, name, tail)
    ensures var t := pre + Path(sp, name) + tail;
      (sp.OfDrive? || Pass(Drive, t) == t) && (sp.OfHome? ==> Pass(Users, t) == t)
  {
    hide Pass, MayFollow, IsSpelling;
    if !sp.OfDrive? {
      PosixTextHasNoDrive(pre, sp, name, tail);
    }
    if sp.OfHome? {
      HomeTextHasNoUsers(pre, name, tail);
    }
  }

  lemma NoneAt(s: string, bad: string)
    requires forall c :: c in s ==> c !in bad
    ensures forall j :: 0 <= j < |s| ==> s[j] !in bad
  {
    forall j | 0 <= j < |s|
      ensures s[j] !in bad
    {
      assert s[j] in s;
    }
  }

  lemma PosixTextHasNoDrive(pre: string, sp: Spelling, name: string, tail: string)
    requires MayPrecede(pre) && !sp.OfDrive? && PlainName(name) && MayFollow(sp, name, tail)
    ensures var t := pre + Path(sp, name) + tail; Pass(Drive, t) == t
  {
    hide Pass, OpensPath, EndsName, IsAz;
    var path := Path(sp, name);
    var t := pre + path + tail;
    NoneAt(name, ":");
    NoneAt(tail, "~:");
    assert forall j :: 0 <= j < |path| ==> path[j] != ':';
    assert forall j :: |pre| <= j < |t| ==> t[j] != ':';
    assert forall j :: 0 <= j < |pre| ==> t[j] == pre[j];
    DriveSpares(t);
  }

  lemma HomeTextHasNoUsers(pre: string, name: string, tail: string)
    requires MayPrecede(pre) && PlainName(name) && MayFollow(OfHome, name, tail)
    ensures var t := pre + Path(OfHome, name) + tail; Pass(Users, t) == t
  {
    hide Pass, OpensPath, EndsName;
    var path := Path(OfHome, name);
    var t, i := pre + path + tail, |pre|;
    assert t[i..i + 6] == "/home/";
    NoneAt(pre, "/\\~");
    NoneAt(name, "/");
    assert t[i + 6..i + 6 + |name|] == name;
    forall j: nat | j < |t| && t[j] == '/'
      ensures StartsNone(Users, t, j)
    {
      if j == i {
        assert t[i + 1] == t[i..i + 6][1] == 'h';
      } else if j == i + 5 {
        assert t[j - 1] == t[i..i + 6][4];
        LetterOpensNone();
      } else if j >= i + |path| {
        SlashInTail(OfHome, name, pre + path, tail, j);
      }
    }
    PosixSpares(Users, t);
  }

  lemma LetterOpensNone()
    ensures !OpensPath('e') && !OpensPath('s') && !OpensPath('~') && !OpensPath('/')
  {
    CodesOfBlanks('e');
    CodesOfBlanks('s');
    CodesOfBlanks('~');
    CodesOfBlanks('/');
    hide BLANKS;
  }

  /** No slash of the tail stands where a path may begin, if the text before it ends with the name. */
  lemma SlashInTail(sp: Spelling, name: string, before: string, tail: string, j: nat)
    requires name != [] && MayFollow(sp, name, tail) && |before| <= j < |before + tail|
    requires |name| <= |before| && before[|before| - |name|..] == name && (before + tail)[j] == '/'
    ensures j > 0 && !OpensPath((before + tail)[j - 1])
  {
    hide OpensPath, EndsName;
    var k := |before|;
    assert tail[j - k] == '/';
    assert (before + tail)[j - 1] == (name + tail)[|name| + j - k - 1] by {
      assert j == k ==> before[k - 1] == before[k - |name|..][|name| - 1];
    }
  }

  /** And so do those after it, once a tilde stands in place of the path. */
  lemma PassesAfter(p: Pattern, pre: string, sp: Spelling, name: string, tail: string)
    requires p != Drive && MayPrecede(pre) && name != [] && MayFollow(sp, name, tail)
    ensures Pass(p, pre + "~" + tail) == pre + "~" + tail
  {
    hide Pass, OpensPath, EndsName;
    var t := pre + "~" + tail;
    NoneAt(pre, "/\\~");
    forall j: nat | j < |t| && t[j] == '/'
      ensures StartsNone(p, t, j)
    {
      var k := |pre| + 1;
      if j == k {
        LetterOpensNone();
        assert t[j - 1] == '~';
      } else if j > k {
        assert t[j] == tail[j - k] && t[j - 1] == tail[j - k - 1] == (name + tail)[|name| + j - k - 1];
      }
    }
    PosixSpares(p, t);
  }

  lemma PassedHome(pre: string, sp: Spelling, name: string, tail: string)
    requires MayPrecede(pre) && IsSpelling(sp) && PlainName(name) && MayFollow(sp, name, tail)
    ensures Pass(Home, Pass(Users, Pass(Drive, pre + Path(sp, name) + tail))) == pre + "~" + tail
  {
    hide Pass, MayPrecede, MayFollow, IsSpelling, Path;
    PassesBefore(pre, sp, name, tail);
    OwnPass(pre, sp, name, tail);
    PassesAfter(Users, pre, sp, name, tail);
    PassesAfter(Home, pre, sp, name, tail);
  }

  // ----- the last step ------------------------------------------------------------------

  lemma TurnedIsSlashes(s: string)
    ensures Slashes(s) == Turned(s)
  {
  }

  lemma {:induction false} TildesFrom(pre: string, s: string)
    requires '~' !in pre
    ensures Tildes(pre + s) == pre + Tildes(s)
  {
    if pre == [] {
      assert pre + s == s;
    } else {
      assert pre[0] in pre && forall c :: c in pre[1..] ==> c in pre;
      TildesFrom(pre[1..], s);
      assert (pre + s)[1..] == pre[1..] + s;
    }
  }

  lemma {:induction false} CollapseFrom(pre: string, s: string)
    requires '~' !in pre
    ensures Collapse(pre + s) == pre + Collapse(s)
  {
    if pre == [] {
      assert pre + s == s;
    } else {
      assert pre[0] in pre && forall c :: c in pre[1..] ==> c in pre;
      CollapseFrom(pre[1..], s);
      assert (pre + s)[1..] == pre[1..] + s;
    }
  }

  lemma {:induction false} DroppedIsUnslashed(tail: string)
    ensures DropSlashes(Turned(tail)) == Turned(Unslashed(tail))
  {
    if tail != [] && tail[0] in "/\\" {
      DroppedIsUnslashed(tail[1..]);
      assert Turned(tail)[1..] == Turned(tail[1..]);
    }
  }

  lemma {:induction false} UnslashedIn(tail: string)
    ensures forall c :: c in Unslashed(tail) ==> c in tail
  {
    if tail != [] && tail[0] in "/\\" {
      UnslashedIn(tail[1..]);
      assert forall c :: c in tail[1..] ==> c in tail;
    }
  }

  lemma TurnedSettles(tail: string)
    requires '~' !in tail
    ensures forall c :: c in Turned(tail) ==> c != '~' && c != '\\'
    ensures Tildes(Turned(tail)) == Turned(tail) && Collapse(Turned(tail)) == Turned(tail)
  {
    assert forall i :: 0 <= i < |tail| ==> tail[i] in tail;
    SettledTextStays(Turned(tail));
  }

  lemma TildeBefore(sp: Spelling, name: string, tail: string)
    requires name != [] && MayFollow(sp, name, tail)
    ensures Collapse(Tildes("~" + Turned(tail))) == "~" + After(tail)
  {
    hide Collapse, Tildes, After;
    if tail == [] {
      TildeAtEnd(tail);
    } else if tail[0] in "/\\" {
      TildeAtSlashes(tail);
    } else if tail[0] in BLANKS {
      TildeAtBlank(tail);
    } else {
      TildeAtQuote(tail);
    }
  }

  lemma TildeAtEnd(tail: string)
    requires tail == []
    ensures Collapse(Tildes("~" + Turned(tail))) == "~" + After(tail)
  {
    assert "~" + Turned(tail) == "~" && "~"[1..] == [];
  }

  lemma TildesHead(u: string)
    requires u != [] && Tildes(u) == u
    ensures Tildes("~" + u) == if u[0] == '/' || u[0] in BLANKS then "~" + u else "~/" + u
  {
    hide IsSpace;
    CharacterClasses(u[0]);
    assert ("~" + u)[1..] == u;
  }

  lemma CollapseHead(u: string)
    requires u != []
    ensures Collapse("~" + u) == if u[0] == '/' then "~/" + Collapse(DropSlashes(u)) else "~" + Collapse(u)
  {
    assert ("~" + u)[1..] == u;
  }

  lemma TildeAtSlashes(tail: string)
    requires '~' !in tail && tail != [] && tail[0] in "/\\"
    ensures Collapse(Tildes("~" + Turned(tail))) == "~" + After(tail)
  {
    hide Turned, Unslashed, Tildes, Collapse;
    var u, v := Turned(tail), Turned(Unslashed(tail));
    TurnedHead(tail);
    TurnedSettles(tail);
    DroppedIsUnslashed(tail);
    UnslashedIn(tail);
    TurnedSettles(Unslashed(tail));
    TildesHead(u);
    CollapseHead(u);
    assert "~/" + v == "~" + ("/" + v);
  }

  lemma TurnedHead(tail: string)
    requires tail != []
    ensures |Turned(tail)| == |tail| && Turned(tail)[0] == if tail[0] == '\\' then '/' else tail[0]
  {
  }

  lemma TildeAtBlank(tail: string)
    requires '~' !in tail && tail != [] && tail[0] in BLANKS
    ensures Collapse(Tildes("~" + Turned(tail))) == "~" + After(tail)
  {
    hide Turned, Tildes, Collapse;
    var u := Turned(tail);
    TurnedHead(tail);
    CodesOfBlanks(tail[0]);
    TurnedSettles(tail);
    TildesHead(u);
    CollapseHead(u);
  }

  lemma TildeAtQuote(tail: string)
    requires '~' !in tail && tail != [] && tail[0] !in "/\\" && tail[0] !in BLANKS
    ensures Collapse(Tildes("~" + Turned(tail))) == "~" + After(tail)
  {
    hide Turned, Tildes, Collapse;
    var u := Turned(tail);
    TurnedHead(tail);
    TurnedSettles(tail);
    TildesHead(u);
    CollapseOneSlash(u);
    assert "~/" + u == "~" + ("/" + u);
  }

  lemma CollapseOneSlash(u: string)
    requires Collapse(u) == u && u != [] && u[0] != '/'
    ensures Collapse("~/" + u) == "~/" + u
  {
    var v := ['/'] + u;
    assert "~/" + u == ['~'] + v && (['~'] + v)[1..] == v && v[1..] == u;
    assert DropSlashes(v) == DropSlashes(u) == u;
  }

  /**
   A home path in any spelling, with any plain user name, at the start of a text or after white
   space or one of = : " ' ( , and followed by nothing, white space, a quote, or slashes and more
   path, is masked to a tilde; the slashes after it become one, and nothing else is hidden.
   */
  lemma HomeIsMasked(pre: string, sp: Spelling, name: string, tail: string)
    requires MayPrecede(pre) && IsSpelling(sp) && PlainName(name) && MayFollow(sp, name, tail)
    ensures Masked(pre + Path(sp, name) + tail) == pre + "~" + After(tail)
  {
    hide Pass, Tildes, Collapse, MayFollow, Path, IsSpelling, OpensPath, Turned, After;
    var t := pre + Path(sp, name) + tail;
    FirstOfPath(sp, name);
    assert t != [] && t[0] != '~' by {
      if pre != [] {
        assert pre[0] in pre && t[0] == pre[0];
      } else {
        assert t[0] == Path(sp, name)[0];
        DriveIsNoTilde(sp);
      }
    }
    PassedHome(pre, sp, name, tail);
    SlashesAppend(pre + "~", tail);
    SlashesAppend(pre, "~");
    TurnedIsSlashes(tail);
    SlashesOfPlain(pre);
    SlashesOfPlain("~");
    assert pre + "~" + Turned(tail) == pre + ("~" + Turned(tail));
    TildesFrom(pre, "~" + Turned(tail));
    CollapseFrom(pre, Tildes("~" + Turned(tail)));
    TildeBefore(sp, name, tail);
    assert pre + ("~" + After(tail)) == pre + "~" + After(tail);
  }

  lemma DriveIsNoTilde(sp: Spelling)
    requires IsSpelling(sp)
    ensures sp.OfDrive? ==> sp.drive != '~'
  {
  }

  // ----- where nothing is masked --------------------------------------------------------

  /** A character after which the path stays; before a drive, one that cannot itself begin a match or a tilde. */
  predicate KeepsPath(sp: Spelling, c: char) {
    !OpensPath(c) && (sp.OfDrive? ==> c !in "/~")
  }

  lemma SparedDrive(pre: string, c: char, sp: Spelling, name: string)
    requires IsSpelling(sp) && PlainName(name) && KeepsPath(sp, c) && forall x :: x in pre ==> x !in "/\\~:"
    ensures var t := pre + [c] + Path(sp, name); Pass(Drive, t) == t
  {
    hide Pass, MatchLen, IsAz;
    var path := Path(sp, name);
    var t, i := pre + [c] + path, |pre| + 1;
    NoneAt(pre, "/\\~:");
    NoneAt(name, ":");
    ColonIsNoKeeper(sp, c);
    ColonsOfPath(sp, name);
    forall j | 0 <= j < |t| && MatchLen(Drive, t[j..]) > 0
      ensures j > 0 && !OpensPath(t[j - 1])
    {
      DriveSecond(t, j);
      assert j + 1 >= i ==> t[j + 1] == path[j + 1 - i];
      assert j == i;
    }
    SparedByPass(Drive, t);
  }

  lemma ColonIsNoKeeper(sp: Spelling, c: char)
    requires KeepsPath(sp, c)
    ensures c != ':'
  {
  }

  lemma ColonsOfPath(sp: Spelling, name: string)
    requires IsSpelling(sp) && PlainName(name)
    ensures forall j :: 0 <= j < |Path(sp, name)| && Path(sp, name)[j] == ':' ==> j == 1
  {
    NoneAt(name, ":");
    if sp.OfDrive? {
      NoneAt(sp.a, ":");
      NoneAt(sp.b, ":");
    }
  }

  lemma SparedPosix(p: Pattern, pre: string, c: char, sp: Spelling, name: string)
    requires p != Drive && PlainName(name) && KeepsPath(sp, c) && forall x :: x in pre ==> x !in "/\\~:"
    requires sp.OfDrive? ==> IsBackslashed(sp)
    ensures var t := pre + [c] + Path(sp, name); Pass(p, t) == t
  {
    hide Pass, MatchLen, OpensPath;
    var path := Path(sp, name);
    var t, i := pre + [c] + path, |pre| + 1;
    NoneAt(pre, "/\\~:");
    NoneAt(name, "/");
    SlashesOfPath(sp, name);
    LetterOpensNone();
    forall j: nat | j < |t| && t[j] == '/'
      ensures StartsNone(p, t, j)
    {
      if j == i - 1 {
        assert t[j + 1] == path[0] == '/';
      } else if j > i {
        assert t[j - 1] == path[j - i - 1];
      }
    }
    PosixSpares(p, t);
  }

  predicate IsBackslashed(sp: Spelling)
    requires sp.OfDrive?
  {
    IsAz(sp.drive) && IsBackslashes(sp.a) && IsBackslashes(sp.b)
  }

  /** In a path every slash but the first one stands after a letter; one with backslashes has none. */
  lemma SlashesOfPath(sp: Spelling, name: string)
    requires PlainName(name) && (sp.OfDrive? ==> IsBackslashed(sp))
    ensures Path(sp, name) != [] && (!sp.OfDrive? ==> Path(sp, name)[0] == '/')
    ensures forall j :: 0 <= j < |Path(sp, name)| && Path(sp, name)[j] == '/' ==>
      !sp.OfDrive? && (j == 0 || Path(sp, name)[j - 1] in "es")
  {
    NoneAt(name, "/");
    if sp.OfDrive? {
      NoneAt(sp.a, "/");
      NoneAt(sp.b, "/");
    }
  }

  lemma KeptText(pre: string, c: char, sp: Spelling, name: string)
    requires PlainName(name) && KeepsPath(sp, c) && (forall x :: x in pre ==> x !in "/\\~:")
    requires sp.OfDrive? ==> IsBackslashed(sp)
    ensures var t := pre + [c] + Path(sp, name); Tildes(Turned(t)) == Turned(t) && Collapse(Turned(t)) == Turned(t)
  {
    hide Tildes, Collapse, OpensPath, IsAz;
    var path := Path(sp, name);
    var t := pre + [c] + path;
    NoneAt(pre, "/\\~:");
    NoneAt(name, "~");
    PathHasNoTilde(sp, name);
    if c != '~' {
      assert '~' !in t;
      TurnedSettles(t);
    } else {
      TurnedSettles(pre);
      TurnedSettles(path);
      SlashesOfPath(sp, name);
      assert Turned(t) == Turned(pre) + ("~" + Turned(path));
      assert Turned(path)[0] == '/' && Turned(path)[1] != '/';
      TildeAndPath(Turned(path));
      TildesFrom(Turned(pre), "~" + Turned(path));
      CollapseFrom(Turned(pre), "~" + Turned(path));
    }
  }

  lemma TildeAndPath(u: string)
    requires Tildes(u) == u && Collapse(u) == u && |u| > 1 && u[0] == '/' && u[1] != '/'
    ensures Tildes("~" + u) == "~" + u && Collapse("~" + u) == "~" + u
  {
    assert ("~" + u)[1..] == u;
    assert Collapse(u) == ['/'] + Collapse(u[1..]);
    assert Collapse(u[1..]) == u[1..];
    assert DropSlashes(u) == DropSlashes(u[1..]) == u[1..];
    assert "~/" + u[1..] == "~" + u;
  }

  lemma PathHasNoTilde(sp: Spelling, name: string)
    requires PlainName(name) && (sp.OfDrive? ==> IsBackslashed(sp))
    ensures '~' !in Path(sp, name)
  {
    NoneAt(name, "~");
    if sp.OfDrive? {
      NoneAt(sp.a, "~");
      NoneAt(sp.b, "~");
    }
  }

  /**
   After any other character the path stays, whatever its name: only its backslashes are turned.
   (A drive spelled with slashes is excepted, because its colon opens a path for the next pattern.)
   */
  lemma HomeIsSpared(pre: string, c: char, sp: Spelling, name: string)
    requires PlainName(name) && KeepsPath(sp, c) && (forall x :: x in pre ==> x !in "/\\~:")
    requires sp.OfDrive? ==> IsBackslashed(sp)
    ensures Masked(pre + [c] + Path(sp, name)) == Turned(pre + [c] + Path(sp, name))
  {
    var t := pre + [c] + Path(sp, name);
    BackslashedIsSpelling(sp);
    hide Pass, Path, Turned, KeepsPath, IsBackslashed, IsSpelling, Tildes, Collapse;
    SparedDrive(pre, c, sp, name);
    SparedPosix(Users, pre, c, sp, name);
    SparedPosix(Home, pre, c, sp, name);
    TurnedIsSlashes(t);
    KeptText(pre, c, sp, name);
    MaskedIsBody(t);
  }

  lemma BackslashedIsSpelling(sp: Spelling)
    requires sp.OfDrive? ==> IsBackslashed(sp)
    ensures IsSpelling(sp)
  {
    if sp.OfDrive? {
      assert forall x :: x in sp.a ==> x == '\\';
      assert forall x :: x in sp.b ==> x == '\\';
    }
  }

  /** A text that counts as masked already only has its backslashes turned. */
  lemma MaskedAlready(raw: string)
    requires raw == "" || raw == "~" || "~/" <= raw
    ensures Masked(raw) == Turned(raw)
  {
    TurnedIsSlashes(raw);
  }
}
