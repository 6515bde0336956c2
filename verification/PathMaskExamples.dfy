/**
 Home paths spelled out, for any drive, any slashes and any name; and the families of texts that
 masking does not hide, each of them a reason for a condition of the theorems.
 */
module PathMaskExamples {
  import opened Sequences
  import opened PathMask
  import opened PathMaskLeaks
  import opened PathMaskRegex
  import opened PathMaskRoots
  import opened PathMaskScan
  import opened PathMaskTwice
  import opened PathMaskWords

  lemma PlainNameIsName(name: string)
    requires PlainName(name)
    ensures forall c :: c in name ==> IsName(Drive, c) && IsName(Users, c) && IsName(Home, c) && c != ':' && c != '~'
  {
    hide IsName;
    forall c | c in name
      ensures IsName(Drive, c) && IsName(Users, c) && IsName(Home, c)
    {
      CharacterClasses(c);
    }
  }

  /** One or more slashes of either kind. */
  predicate IsSlashes(a: string) { a != [] && forall c :: c in a ==> c in "/\\" }

  /** The drive spelling of a home, with any slashes. */
  function DrivePath(drive: char, a: string, b: string, name: string): string {
    [drive, ':'] + (a + ("Users" + (b + name)))
  }

  lemma {:induction false} SlashRunOf(a: string, r: string)
    requires (forall c :: c in a ==> IsSlash(c)) && (r == [] || !IsSlash(r[0]))
    ensures SlashRun(a + r) == |a|
  {
    if a == [] {
      assert a + r == r;
    } else {
      assert a[0] in a && forall c :: c in a[1..] ==> c in a;
      SlashRunOf(a[1..], r);
      assert (a + r)[1..] == a[1..] + r;
    }
  }

  lemma {:induction false} NameRunOf(p: Pattern, name: string, r: string)
    requires (forall c :: c in name ==> IsName(p, c)) && (r == [] || !IsName(p, r[0]))
    ensures NameRun(p, name + r) == |name|
  {
    if name == [] {
      assert name + r == r;
    } else {
      assert name[0] in name && forall c :: c in name[1..] ==> c in name;
      NameRunOf(p, name[1..], r);
      assert (name + r)[1..] == name[1..] + r;
    }
  }

  lemma UsersWord(r: string)
    ensures StartsWith("Users" + r, "users") && ("Users" + r)[5..] == r
  {
    assert ("Users" + r)[..5] == "Users";
    assert Lower("Users") == "users";
  }

  lemma SlashesAreSlash(a: string)
    requires IsSlashes(a)
    ensures forall c :: c in a ==> IsSlash(c)
  {
  }

  /** The parts of such a path, from the end of its drive on. */
  lemma DrivePathParts(drive: char, a: string, b: string, name: string)
    ensures var s := DrivePath(drive, a, b, name);
      && |s| == 7 + |a| + |b| + |name| && s[0] == drive && s[1] == ':' && s[2..] == a + ("Users" + (b + name))
      && s[2 + |a|..] == "Users" + (b + name) && s[7 + |a|..] == b + name && s[7 + |a| + |b|..] == name
  {
    var s, n := DrivePath(drive, a, b, name), 2 + |a|;
    assert s[n..] == "Users" + (b + name);
    assert s[n + 5..] == s[n..][5..] == b + name;
    assert s[n + 5 + |b|..] == s[n + 5..][|b|..] == name;
  }

  lemma DrivePathHead(drive: char, a: string, b: string, name: string)
    requires IsAz(drive) && IsSlashes(a) && IsSlashes(b) && name != [] && IsName(Drive, name[0])
    ensures DriveHead(DrivePath(drive, a, b, name)) == 7 + |a| + |b|
    ensures DrivePath(drive, a, b, name)[7 + |a| + |b|..] == name
  {
    hide DrivePath, DriveHead, StartsWith, IsSlash, IsAz, IsLetter;
    var s, n := DrivePath(drive, a, b, name), 2 + |a|;
    DrivePathParts(drive, a, b, name);
    CharacterClasses(drive);
    SlashesAreSlash(a);
    SlashesAreSlash(b);
    NameIsNoSlash(name[0]);
    SlashRunOf(a, "Users" + (b + name));
    UsersWord(b + name);
    SlashRunOf(b, name);
    assert s[n + 5 + |b|] == s[n + 5 + |b|..][0] == name[0];
    DrivePartsGive(s, n, n + 5 + |b|);
  }

  lemma NameIsNoSlash(c: char)
    ensures IsName(Drive, c) ==> !IsSlash(c)
    ensures !IsSlash('U')
  {
  }

  /** How long the match of such a path is when something that is no name character follows the name. */
  lemma DrivePathMatch(drive: char, a: string, b: string, name: string, rest: string)
    requires IsAz(drive) && IsSlashes(a) && IsSlashes(b) && name != []
    requires (forall c :: c in name ==> IsName(Drive, c)) && (rest == [] || !IsName(Drive, rest[0]))
    ensures MatchLen(Drive, DrivePath(drive, a, b, name + rest)) == 7 + |a| + |b| + |name|
  {
    hide DrivePath, DriveHead, IsName, IsSlashes, IsAz;
    assert name[0] in name && (name + rest)[0] == name[0];
    DrivePathHead(drive, a, b, name + rest);
    NameRunOf(Drive, name, rest);
  }

  lemma WholeMatchGoes(p: Pattern, t: string)
    requires MatchLen(p, t) == |t| > 0
    ensures Pass(p, t) == "~"
  {
    assert Unguarded([]) && t[|t|..] == [] && [] + t[..|t|] == t;
    assert Scan(Matcher(p), Unguarded, t, []) == [];
    assert Matches(Matcher(p), t);
  }

  lemma TildePasses(p: Pattern)
    ensures Pass(p, "~") == "~" && Normalised("~") == "~"
  {
    assert MatchLen(p, "~") == 0;
    assert Slashes("~") == "~";
  }

  /** The Windows spelling of a home, single or doubled backslashes or slashes, is masked to a lone tilde. */
  lemma DrivePathIsMasked(drive: char, a: string, b: string, name: string)
    requires IsAz(drive) && IsSlashes(a) && IsSlashes(b) && PlainName(name)
    ensures Masked(DrivePath(drive, a, b, name)) == "~"
  {
    hide Pass, Normalised, DriveHead;
    var t := DrivePath(drive, a, b, name);
    assert name + [] == name;
    DrivePathMatch(drive, a, b, name, []);
    WholeMatchGoes(Drive, t);
    TildePasses(Users);
    TildePasses(Home);
    assert t[0] != '~';
  }

  lemma NoMatchWithoutMarks(p: Pattern, s: string)
    requires if p == Drive then ':' !in s else '/' !in s
    ensures MatchLen(p, s) == 0
  {
    if p == Drive {
      assert |s| >= 2 ==> s[1] in s;
    } else {
      assert s != [] ==> s[0] in s;
      WordStartsWithSlash(p, s);
    }
  }

  /** A text without colons is untouched by the drive pass, one without slashes by the others. */
  lemma {:induction false} UnmarkedIsQuiet(p: Pattern, t: string, i: nat)
    requires i <= |t| && if p == Drive then ':' !in t[i..] else '/' !in t[i..]
    ensures Quiet(Matcher(p), Unguarded, t, i)
    decreases |t| - i
  {
    if i < |t| {
      NoMatchWithoutMarks(p, t[i..]);
      assert t[i + 1..] == t[i..][1..] && forall c :: c in t[i + 1..] ==> c in t[i..];
      UnmarkedIsQuiet(p, t, i + 1);
    }
  }

  lemma UnmarkedPass(p: Pattern, t: string)
    requires if p == Drive then ':' !in t else '/' !in t
    ensures Pass(p, t) == t
  {
    assert t[0..] == t;
    UnmarkedIsQuiet(p, t, 0);
    SettledPass(p, t);
  }

  lemma UsersPathMatch(name: string)
    requires PlainName(name)
    ensures MatchLen(Users, "/Users/" + name) == 7 + |name|
  {
    var t := "/Users/" + name;
    assert t[..7] == "/Users/" && t[7..] == name && Lower("/Users/") == "/users/";
    assert t[7] == name[0] && name[0] in name && name + [] == name;
    NameRunOf(Users, name, []);
  }

  /** The POSIX spelling of a home is masked to a lone tilde. */
  lemma UsersPathIsMasked(name: string)
    requires PlainName(name)
    ensures Masked("/Users/" + name) == "~"
  {
    hide Pass, Normalised, MatchLen;
    var t := "/Users/" + name;
    assert forall c :: c in t ==> c in "/Users/" || c in name;
    UnmarkedPass(Drive, t);
    UsersPathMatch(name);
    WholeMatchGoes(Users, t);
    TildePasses(Home);
    assert t[0] == '/';
  }

  // ----- roots that survive -------------------------------------------------------------

  /** A text that no pass changes and that has no tilde only gets its backslashes turned. */
  lemma OnlySlashes(t: string)
    requires AllSettled(t) && '~' !in t && t != []
    ensures Masked(t) == Slashes(t)
  {
    hide Pass, Slashes, IsSettled;
    SettledPass(Drive, t);
    SettledPass(Users, t);
    SettledPass(Home, t);
    assert t[0] in t;
    NoTildeInSlashes(t);
    SettledTextStays(Slashes(t));
  }

  lemma NoTildeInSlashes(t: string)
    requires '~' !in t
    ensures forall c :: c in Slashes(t) ==> c != '~' && c != '\\'
  {
    assert forall i :: 0 <= i < |t| ==> t[i] in t;
  }

  /**
   Roots spelled with backslashes survive: the whole family `\Users\<name>` passes all three
   patterns, and the slash conversion turns it into a home path that is shown. A second masking
   would hide it, so on this family masking is not idempotent either.
   */
  lemma BackslashRootsLeak(name: string)
    requires PlainName(name)
    ensures Masked("\\Users\\" + name) == "/Users/" + name
    ensures !LeakFree(Masked("\\Users\\" + name))
    ensures Masked(Masked("\\Users\\" + name)) == "~"
  {
    hide AllSettled, LeakFree, Masked, Slashes;
    BackslashRootIsSettled(name);
    OnlySlashes("\\Users\\" + name);
    SlashesOfRoot(name);
    UsersPathLeaks(name);
    UsersPathIsMasked(name);
  }

  lemma BackslashRootIsSettled(name: string)
    requires PlainName(name)
    ensures AllSettled("\\Users\\" + name) && '~' !in "\\Users\\" + name
  {
    hide IsSettled, MatchLen;
    var raw := "\\Users\\" + name;
    assert forall c :: c in raw ==> c in "\\Users\\" || c in name;
    assert raw[0..] == raw;
    forall p: Pattern
      ensures IsSettled(p, raw)
    {
      UnmarkedIsQuiet(p, raw, 0);
      SettledIsQuiet(p, raw);
    }
  }

  lemma SlashesOfRoot(name: string)
    requires PlainName(name)
    ensures Slashes("\\Users\\" + name) == "/Users/" + name
  {
    SlashesOfName("\\Users\\", name);
    assert Slashes("\\Users\\") == "/Users/";
  }

  lemma UsersPathLeaks(name: string)
    requires PlainName(name)
    ensures !LeakFree("/Users/" + name)
  {
    hide MatchLen;
    UsersPathMatch(name);
    assert ("/Users/" + name)[0..] == "/Users/" + name;
    assert LeaksAt("/Users/" + name, Users, 0);
  }

  lemma SettledIsQuiet(p: Pattern, t: string)
    requires Quiet(Matcher(p), Unguarded, t, 0)
    ensures IsSettled(p, t)
  {
  }

  lemma SlashesOfName(a: string, name: string)
    requires PlainName(name)
    ensures Slashes(a + name) == Slashes(a) + name
  {
    forall i | 0 <= i < |a + name|
      ensures Slashes(a + name)[i] == (Slashes(a) + name)[i]
    {
      assert i >= |a| ==> name[i - |a|] in name;
    }
  }

  /** One drive path inside the user name of another, which stays because a letter stands before it. */
  function Shielded(a: string, b: string, c: string, d: string, name: string): string {
    "x" + DrivePath('A', a, b, "=B:" + (c + ("Users" + (d + name))))
  }

  predicate IsBackslashes(a: string) { a != [] && forall c :: c in a ==> c == '\\' }

  lemma ShieldedDriveIsQuiet(a: string, b: string, rest: string)
    requires IsBackslashes(a) && IsBackslashes(b) && rest != [] && rest[0] == '\\' && ':' !in rest
    ensures IsSettled(Drive, "x" + DrivePath('A', a, b, "=B:" + rest))
  {
    hide MatchLen;
    var path := DrivePath('A', a, b, "=B:" + rest);
    var t := "x" + path;
    var k := 10 + |a| + |b|;
    DrivePathMatch('A', a, b, "=B:", rest);
    assert t[1..] == path && t[0..] == t && t[..1] == "x";
    ColonIsSecond(t);
    assert path == [path[0], ':'] + (a + ("Users" + (b + "=B:"))) + rest;
    assert t[1 + k..] == rest;
    UnmarkedIsQuiet(Drive, t, 1 + k);
    assert Quiet(Matcher(Drive), Unguarded, t, 1);
    assert StepLen(Matcher(Drive), t[0..]) == 1;
  }

  lemma ColonIsSecond(t: string)
    requires |t| > 1 && t[1] != ':'
    ensures MatchLen(Drive, t) == 0
  {
  }

  lemma ShieldedIsPlain(a: string, b: string, c: string, d: string, name: string)
    requires IsBackslashes(a) && IsBackslashes(b) && IsBackslashes(c) && IsBackslashes(d) && PlainName(name)
    ensures var rest := c + ("Users" + (d + name));
      rest[0] == '\\' && ':' !in rest && '/' !in Shielded(a, b, c, d, name) && '~' !in Shielded(a, b, c, d, name)
  {
    var rest := c + ("Users" + (d + name));
    assert rest[0] == c[0] && c[0] in c;
    forall x | x in rest
      ensures x != ':' && x != '/' && x != '~'
    {
      assert x in c || x in "Users" || x in d || x in name;
    }
    forall x | x in Shielded(a, b, c, d, name)
      ensures x != '/' && x != '~'
    {
      assert x in "x" || x in "A:" || x in a || x in "Users" || x in b || x in "=B:" || x in rest;
    }
  }

  /**
   A drive root that starts at a boundary inside a match that stays survives: so the condition on
   shielded roots is needed, whatever the number of backslashes.
   */
  lemma ShieldedRootsLeak(a: string, b: string, c: string, d: string, name: string)
    requires IsBackslashes(a) && IsBackslashes(b) && IsBackslashes(c) && IsBackslashes(d) && PlainName(name)
    ensures Masked(Shielded(a, b, c, d, name)) == Slashes(Shielded(a, b, c, d, name))
    ensures !LeakFree(Masked(Shielded(a, b, c, d, name)))
  {
    hide MatchLen, Slashes, IsSettled, LeakFree;
    var raw, rest := Shielded(a, b, c, d, name), c + ("Users" + (d + name));
    ShieldedIsPlain(a, b, c, d, name);
    ShieldedDriveIsQuiet(a, b, rest);
    assert raw[0..] == raw;
    forall p: Pattern
      ensures IsSettled(p, raw)
    {
      if p != Drive {
        UnmarkedIsQuiet(p, raw, 0);
        SettledIsQuiet(p, raw);
      }
    }
    OnlySlashes(raw);
    SlashesLeak(raw);
    InnerRootIsShown(a, b, c, d, name);
  }

  lemma SlashesOfBackslashes(a: string)
    requires IsBackslashes(a)
    ensures IsSlashes(Slashes(a))
  {
    forall i | 0 <= i < |a|
      ensures Slashes(a)[i] == '/'
    {
      assert a[i] in a;
    }
  }

  lemma DriveMatchIsRoot(drive: char, a: string, b: string, name: string)
    requires IsAz(drive) && IsBackslashes(a) && IsBackslashes(b) && PlainName(name)
    ensures RootAt(Drive, DrivePath(drive, a, b, name))
  {
    var u := Slashes(DrivePath(drive, a, b, name));
    var a1, b1 := Slashes(a), Slashes(b);
    SlashesOfBackslashes(a);
    SlashesOfBackslashes(b);
    SlashesOfParts(drive, a, b, name);
    assert u == DrivePath(drive, a1, b1, name);
    assert name[0] in name;
    DrivePathHead(drive, a1, b1, name);
  }

  lemma SlashesAppend(s: string, t: string)
    ensures Slashes(s + t) == Slashes(s) + Slashes(t)
  {
  }

  lemma SlashesOfParts(drive: char, a: string, b: string, name: string)
    requires IsAz(drive) && PlainName(name)
    ensures Slashes(DrivePath(drive, a, b, name)) == DrivePath(drive, Slashes(a), Slashes(b), name)
  {
    SlashesAppend([drive, ':'], a + ("Users" + (b + name)));
    SlashesAppend(a, "Users" + (b + name));
    SlashesAppend("Users", b + name);
    SlashesOfName(b, name);
    assert Slashes([drive, ':']) == [drive, ':'] && Slashes("Users") == "Users";
  }

  lemma InnerRootIsShown(a: string, b: string, c: string, d: string, name: string)
    requires IsBackslashes(a) && IsBackslashes(b) && IsBackslashes(c) && IsBackslashes(d) && PlainName(name)
    ensures Shown(Drive, true, Shielded(a, b, c, d, name))
  {
    hide RootAt, Shown;
    var raw, inner := Shielded(a, b, c, d, name), DrivePath('B', c, d, name);
    var head := "x" + ("A:" + (a + ("Users" + (b + "="))));
    assert raw == head + inner;
    var j := |head|;
    DriveMatchIsRoot('B', c, d, name);
    assert raw[j..] == inner && raw[..j] == head && head[j - 1] == '=';
    ShownSomewhere(Drive, raw);
  }

  // ----- a URL whose scheme is swallowed ------------------------------------------------

  const SWALLOWED: string := "/home/x://,/home/b"

  predicate IsU(c: char) { LowerChar(c) == 'u' }

  /** Without the letter u there is neither a drive match nor a users match. */
  lemma {:induction false} NoUIsQuiet(p: Pattern, t: string, i: nat)
    requires i <= |t| && p != Home && forall c :: c in t ==> !IsU(c)
    ensures Quiet(Matcher(p), Unguarded, t, i)
    decreases |t| - i
  {
    if i < |t| {
      NoUNoMatch(p, t[i..]);
      NoUIsQuiet(p, t, i + 1);
    }
  }

  lemma MatchHasU(p: Pattern, s: string)
    requires p != Home && MatchLen(p, s) > 0
    ensures exists c :: c in s && IsU(c)
  {
    if p == Drive {
      var a := 2 + SlashRun(s[2..]);
      DriveParts(s);
      assert Lower(s[a..][..5])[0] == LowerChar(s[a]);
      assert s[a] in s && IsU(s[a]);
    } else {
      assert Lower(s[..7])[1] == LowerChar(s[1]);
      assert s[1] in s && IsU(s[1]);
    }
  }

  lemma NoUNoMatch(p: Pattern, s: string)
    requires p != Home && forall c :: c in s ==> !IsU(c)
    ensures MatchLen(p, s) == 0
  {
    if MatchLen(p, s) > 0 {
      MatchHasU(p, s);
    }
  }

  lemma UrlAtComma()
    ensures UrlContext("/home/x://,")
  {
    var pre := "/home/x" + "://";
    assert pre[|pre| - 3..] == "://" && pre[..|pre| - 3] == "/home/x";
    assert pre + [','] == "/home/x://,";
    UrlGoesOnBy(pre, ',');
  }

  lemma HomeNeeds(s: string)
    ensures MatchLen(Home, s) > 0 ==> |s| > 6 && s[0] == '/' && LowerChar(s[1]) == 'h'
  {
    if MatchLen(Home, s) > 0 {
      assert Lower(s[..6])[0] == LowerChar(s[0]) == '/' && Lower(s[..6])[1] == LowerChar(s[1]);
    }
  }

  /** In the example only its first and eleventh character can start a home match; the latter is spared. */
  lemma SwallowedTail(t: string, j: nat)
    requires t == SWALLOWED && 8 <= j < |t|
    ensures !(Matches(Matcher(Home), t[j..]) && Unguarded(t[..j]))
  {
    HomeNeeds(t[j..]);
    if j == 11 {
      assert t[..11] == "/home/x://,";
      UrlAtComma();
    }
  }

  lemma {:induction false} SwallowedIsQuiet(t: string, j: nat)
    requires t == SWALLOWED && 8 <= j <= |t|
    ensures Quiet(Matcher(Home), Unguarded, t, j)
    decreases |t| - j
  {
    hide MatchLen, Unguarded;
    if j < |t| {
      SwallowedTail(t, j);
      SwallowedIsQuiet(t, j + StepLen(Matcher(Home), t[j..]));
    }
  }

  lemma HomeMatchOf(name: string, rest: string)
    requires name != [] && (forall c :: c in name ==> IsName(Home, c)) && rest != [] && !IsName(Home, rest[0])
    ensures MatchLen(Home, "/home/" + (name + rest)) == 6 + |name|
  {
    var t := "/home/" + (name + rest);
    assert t[..6] == "/home/" && t[6..] == name + rest && Lower("/home/") == "/home/";
    assert name[0] in name && t[6] == name[0];
    NameRunOf(Home, name, rest);
  }

  lemma FirstMatchGoes(p: Pattern, t: string, k: nat)
    requires k == MatchLen(p, t) > 0 && Quiet(Matcher(p), Unguarded, t, k)
    ensures Pass(p, t) == "~" + t[k..]
  {
    hide MatchLen;
    QuietScan(Matcher(p), Unguarded, t, k);
    assert [] + t[..k] == t[..k] && Unguarded([]);
  }

  lemma SwallowedHasNoU(t: string)
    requires t == SWALLOWED
    ensures Pass(Drive, t) == t && Pass(Users, t) == t
  {
    hide Pass, Quiet;
    assert forall c :: c in t ==> !IsU(c);
    NoUIsQuiet(Drive, t, 0);
    NoUIsQuiet(Users, t, 0);
    SettledPass(Drive, t);
    SettledPass(Users, t);
  }

  lemma SwallowedParts(t: string)
    requires t == SWALLOWED
    ensures t == "/home/" + ("x:" + "//,/home/b") && t[8..] == "//,/home/b"
    ensures (forall c :: c in "x:" ==> IsName(Home, c)) && "//,/home/b"[0] == '/'
  {
  }

  lemma SwallowedByHome(t: string)
    requires t == SWALLOWED
    ensures Pass(Home, t) == "~//,/home/b"
  {
    hide Pass, MatchLen, Quiet, IsName;
    SwallowedParts(t);
    SlashIsNoName();
    HomeMatchOf("x:", "//,/home/b");
    SwallowedIsQuiet(t, 8);
    FirstMatchGoes(Home, t, 8);
  }

  lemma SlashIsNoName()
    ensures !IsName(Home, '/')
  {
  }

  lemma TildesOfSlashes(r: string)
    requires Tildes(r) == r
    ensures Tildes(['~'] + (['/'] + (['/'] + r))) == ['~'] + (['/'] + (['/'] + r))
  {
    var r1 := ['/'] + r;
    var r2 := ['/'] + r1;
    assert r1[1..] == r && r2[1..] == r1 && (['~'] + r2)[1..] == r2;
    assert Tildes(r1) == r1;
    assert Tildes(r2) == r2;
  }

  lemma CollapseOfSlashes(r: string)
    requires Collapse(r) == r && r != [] && r[0] != '/'
    ensures Collapse(['~'] + (['/'] + (['/'] + r))) == "~/" + r
  {
    var r1 := ['/'] + r;
    var r2 := ['/'] + r1;
    assert r1[1..] == r && r2[1..] == r1 && (['~'] + r2)[1..] == r2;
    assert DropSlashes(r1) == r;
    assert DropSlashes(r2) == r;
  }

  lemma TildeAndSlashes(r: string)
    requires r != [] && r[0] != '/' && forall c :: c in r ==> c != '~' && c != '\\'
    ensures Normalised("~//" + r) == "~/" + r
  {
    hide Slashes, Tildes, Collapse;
    var t := ['~'] + (['/'] + (['/'] + r));
    assert "~//" + r == t;
    assert forall c :: c in t ==> c == '~' || c == '/' || c in r;
    SlashesOfPlain(t);
    SettledTextStays(r);
    TildesOfSlashes(r);
    CollapseOfSlashes(r);
  }

  /**
   A path that is spared as part of a URL loses that URL when the match before it swallows the
   scheme: here within a single pass.
   */
  lemma SwallowedUrlLeaks()
    ensures Masked(SWALLOWED) == "~/,/home/b"
    ensures Unguarded("~/,") && MatchLen(Home, "/home/b") > 0
  {
    hide Pass, Normalised;
    var r := ",/home/b";
    SwallowedHasNoU(SWALLOWED);
    SwallowedByHome(SWALLOWED);
    assert "~//" + r == "~//,/home/b" && "~/" + r == "~/,/home/b";
    TildeAndSlashes(r);
    SwallowedIsBody(SWALLOWED);
    SparedRoot();
  }

  lemma SwallowedIsBody(t: string)
    requires t == SWALLOWED
    ensures Masked(t) == Body(t)
  {
  }

  lemma SparedRoot()
    ensures Unguarded("~/,") && MatchLen(Home, "/home/b") > 0
  {
    assert "~/,"[..0] == [];
    assert Lower("/home/b"[..6]) == "/home/";
  }
}
