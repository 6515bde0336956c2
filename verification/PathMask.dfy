/**
 The home-path masker: three global regular-expression passes over the text, each with a
 boundary and a URL rule for its matches, then backslash and tilde normalisation.
 */
module PathMask {
  import opened Sequences

  // ----- character classes --------------------------------------------------------------

  /** JavaScript's `\s`. */
  predicate IsSpace(c: char) {
    var n := c as int;
    9 <= n <= 13 || n == 32 || n == 0xA0 || n == 0x1680 || 0x2000 <= n <= 0x200A
    || n == 0x2028 || n == 0x2029 || n == 0x202F || n == 0x205F || n == 0x3000 || n == 0xFEFF
  }

  predicate IsSlash(c: char) { c == '/' || c == '\\' }

  predicate IsLetter(c: char) { 'a' <= LowerChar(c) <= 'z' }

  /** `[a-z0-9+.-]`, case ignored */
  predicate IsSchemeChar(c: char) { IsLetter(c) || '0' <= c <= '9' || c == '+' || c == '.' || c == '-' }

  /** `[\s=:"'(,]` */
  predicate IsBoundary(c: char) {
    IsSpace(c) || c == '=' || c == ':' || c == '"' || c == '\'' || c == '(' || c == ','
  }

  // ----- the three patterns -------------------------------------------------------------

  datatype Pattern = Drive | Users | Home

  /** Characters of the user name; only the drive pattern stops at a backslash. */
  predicate IsName(p: Pattern, c: char) {
    !IsSpace(c) && c != '"' && c != '\'' && c != '/' && (p == Drive ==> c != '\\')
  }

  predicate StartsWith(s: string, word: string) {
    |word| <= |s| && Lower(s[..|word|]) == word
  }

  function SlashRun(s: string): (n: nat)
    ensures n <= |s|
  {
    if s == [] || !IsSlash(s[0]) then 0 else 1 + SlashRun(s[1..])
  }

  function NameRun(p: Pattern, s: string): (n: nat)
    ensures n <= |s|
  {
    if s == [] || !IsName(p, s[0]) then 0 else 1 + NameRun(p, s[1..])
  }

  function WordOf(p: Pattern): string {
    match p case Drive => "users" case Users => "/users/" case Home => "/home/"
  }

  /** Offset of the user name in a match of `X:[\\/]+Users[\\/]+name` at the start of s, else 0. */
  function DriveHead(s: string): (h: nat)
    ensures h < |s| || h == 0
  {
    if |s| < 2 || !IsLetter(s[0]) || s[1] != ':' then 0
    else
      var a := 2 + SlashRun(s[2..]);
      if a == 2 || !StartsWith(s[a..], "users") then 0
      else
        var b := a + 5 + SlashRun(s[a + 5..]);
        if b == a + 5 || b == |s| || !IsName(Drive, s[b]) then 0 else b
  }

  /** Offset of the user name in a match at the start of s, or 0 when the pattern does not match there. */
  function Head(p: Pattern, s: string): (h: nat)
    ensures h < |s| || h == 0
  {
    if p == Drive then DriveHead(s)
    else
      var w := |WordOf(p)|;
      if StartsWith(s, WordOf(p)) && w < |s| && IsName(p, s[w]) then w else 0
  }

  /** Length of the match at the start of s, or 0. */
  function MatchLen(p: Pattern, s: string): (n: nat)
    ensures n <= |s|
  {
    var h := Head(p, s);
    if h == 0 then 0 else h + NameRun(p, s[h..])
  }

  // ----- the two context rules ----------------------------------------------------------

  predicate EndsWithScheme(t: string) {
    t != [] && (IsLetter(t[|t| - 1]) || (IsSchemeChar(t[|t| - 1]) && EndsWithScheme(t[..|t| - 1])))
  }

  /** The text so far ends with `scheme://` and non-spaces. */
  predicate UrlContext(pre: string) {
    |pre| >= 3
    && ((pre[|pre| - 3..] == "://" && EndsWithScheme(pre[..|pre| - 3]))
        || (!IsSpace(pre[|pre| - 1]) && UrlContext(pre[..|pre| - 1])))
  }

  predicate AtBoundary(pre: string) { pre == [] || IsBoundary(pre[|pre| - 1]) }

  // ----- one pass, and the whole rewrite ------------------------------------------------

  /**
   A global `replace` from the point where `pre` is consumed. `m` gives the length of the match
   at the start of a text (0 for none), `g` says whether a match after a given prefix becomes "~"
   or stays; either way it is consumed, so matches do not overlap.
   */
  function Scan(m: string -> nat, g: string -> bool, pre: string, s: string): string
    decreases |s|
  {
    if s == [] then []
    else if m(s) == 0 || m(s) > |s| then [s[0]] + Scan(m, g, pre + [s[0]], s[1..])
    else (if g(pre) then "~" else s[..m(s)]) + Scan(m, g, pre + s[..m(s)], s[m(s)..])
  }

  predicate Matches(m: string -> nat, s: string) { 0 < m(s) <= |s| }

  /** How much one step of a scan consumes. */
  function StepLen(m: string -> nat, s: string): (k: nat)
    requires s != []
    ensures 1 <= k <= |s|
  {
    if Matches(m, s) then m(s) else 1
  }

  lemma ScanStep(m: string -> nat, g: string -> bool, t: string, i: nat)
    requires i < |t|
    ensures var s := t[i..];
      var k := StepLen(m, s);
      Scan(m, g, t[..i], s) == (if g(t[..i]) && Matches(m, s) then "~" else s[..k]) + Scan(m, g, t[..i + k], t[i + k..])
  {
    var s := t[i..];
    var k := StepLen(m, s);
    assert t[..i] + s[..k] == t[..i + k] && s[k..] == t[i + k..] && s[..1] == [s[0]];
  }

  function Matcher(p: Pattern): string -> nat { (s: string) => MatchLen(p, s) }

  predicate Unguarded(pre: string) { !UrlContext(pre) && AtBoundary(pre) }

  function Pass(p: Pattern, s: string): string { Scan(Matcher(p), Unguarded, [], s) }

  function Slashed(c: char): char { if c == '\\' then '/' else c }

  /** `replace(/\\/g, "/")` */
  function Slashes(s: string): string { Map(Slashed, s) }

  /** `replace(/~(?![/\s]|$)/g, "~/")` */
  function Tildes(s: string): string {
    if s == [] then []
    else if s[0] == '~' && |s| > 1 && s[1] != '/' && !IsSpace(s[1]) then "~/" + Tildes(s[1..])
    else [s[0]] + Tildes(s[1..])
  }

  function DropSlashes(s: string): (r: string)
    ensures |r| <= |s|
  {
    if s != [] && s[0] == '/' then DropSlashes(s[1..]) else s
  }

  /** `replace(/~\/+/g, "~/")` */
  function Collapse(s: string): string
    decreases |s|
  {
    if s == [] then []
    else if s[0] == '~' && |s| > 1 && s[1] == '/' then "~/" + Collapse(DropSlashes(s[1..]))
    else [s[0]] + Collapse(s[1..])
  }

  function Normalised(s: string): string { Collapse(Tildes(Slashes(s))) }

  /** The rewrite proper, for a text that is not already masked. */
  function Body(raw: string): string {
    Normalised(Pass(Home, Pass(Users, Pass(Drive, raw))))
  }

  function Masked(raw: string): string {
    if raw == [] then [] else if "~/" <= raw || raw == "~" then Slashes(raw) else Body(raw)
  }

  lemma BodyOfShort()
    ensures Body([]) == [] && Body("~") == "~"
  {
    assert Slashes("~") == "~";
    assert forall p: Pattern :: MatchLen(p, "~") == 0 && MatchLen(p, []) == 0;
    assert "~"[1..] == [];
  }

  const PATTERNS: seq<Pattern> := [Drive, Users, Home]

  function Passes(k: nat, raw: string): string
    requires k <= 3
  {
    if k == 0 then raw else Pass(PATTERNS[k - 1], Passes(k - 1, raw))
  }

  method MaskHomePathForUi(raw: Option<string>) returns (masked: string)
    ensures masked == if raw.Some? then Masked(raw.value) else ""
  {
    if raw.None? || raw.value == "" {
      return "";
    }
    if "~/" <= raw.value || raw.value == "~" {
      return Slashes(raw.value);
    }
    var out := raw.value;
    for k := 0 to |PATTERNS|
      invariant out == Passes(k, raw.value)
    {
      out := Pass(PATTERNS[k], out);
    }
    assert Passes(2, raw.value) == Pass(Users, Passes(1, raw.value));
    assert Passes(1, raw.value) == Pass(Drive, Passes(0, raw.value));
    out := Slashes(out);
    out := Tildes(out);
    masked := Collapse(out);
  }
}
