/**
 The vault's pages in their own terms: the names of generated pages, the page that stands for each
 path when nodes and generated pages share it, and which pages a query shows.
 */
module VaultRules {
  import opened Sequences
  import opened StableSort
  import opened VaultPages
  import PathMask

  // ----- names --------------------------------------------------------------------------

  /** The number in decimal digits, with zeros in front up to three. */
  function Digits3(i: nat): string {
    if i < 1000 then ["0123456789"[i / 100], "0123456789"[i / 10 % 10], "0123456789"[i % 10]] else Decimal(i)
  }

  lemma LastDigit(i: nat)
    ensures Decimal(i) == (if i < 10 then "" else Decimal(i / 10)) + ["0123456789"[i % 10]]
  {
  }

  lemma TwoDigits(i: nat)
    requires 10 <= i < 100
    ensures Decimal(i) == ["0123456789"[i / 10], "0123456789"[i % 10]]
  {
    hide Decimal;
    LastDigit(i);
    LastDigit(i / 10);
    assert i / 10 % 10 == i / 10;
  }

  lemma ThreeDigits(i: nat)
    requires 100 <= i < 1000
    ensures Decimal(i) == ["0123456789"[i / 100], "0123456789"[i / 10 % 10], "0123456789"[i % 10]]
  {
    hide Decimal;
    LastDigit(i);
    TwoDigits(i / 10);
    assert i / 10 / 10 == i / 100;
  }

  lemma PadIsDigits3(i: nat)
    ensures PadNumber(i) == Digits3(i)
  {
    hide Decimal;
    if i < 10 {
      LastDigit(i);
    } else if i < 100 {
      TwoDigits(i);
    } else if i < 1000 {
      ThreeDigits(i);
    } else {
      LongDecimal(i);
    }
  }

  lemma LongDecimal(i: nat)
    requires i >= 1000
    ensures |Decimal(i)| >= 4
  {
    DecimalEnds(i);
    DecimalEnds(i / 10);
    DecimalEnds(i / 100);
    DecimalEnds(i / 1000);
  }

  lemma Digits3Differ(i: nat, j: nat)
    requires Digits3(i) == Digits3(j)
    ensures i == j
  {
    hide Decimal;
    if i >= 1000 {
      LongDecimal(i);
    }
    if j >= 1000 {
      LongDecimal(j);
    }
    assert i < 1000 <==> j < 1000;
    if i < 1000 {
      ShortDigitsDiffer(i, j);
    } else {
      DecimalIsInjective(i, j);
    }
  }

  lemma ShortDigitsDiffer(i: nat, j: nat)
    requires i < 1000 && j < 1000 && Digits3(i) == Digits3(j)
    ensures i == j
  {
    var a, b := Digits3(i), Digits3(j);
    assert a[0] == b[0] && a[1] == b[1] && a[2] == b[2];
    DigitsDiffer(i / 100, j / 100);
    DigitsDiffer(i / 10 % 10, j / 10 % 10);
    DigitsDiffer(i % 10, j % 10);
    FromDigits(i);
    FromDigits(j);
  }

  lemma FromDigits(i: nat)
    ensures i == 100 * (i / 100) + 10 * (i / 10 % 10) + i % 10
  {
    assert i / 10 == 10 * (i / 100) + i / 10 % 10;
  }

  /** Page i of a project is prefix/page_NNN.rs, and no two of its pages have the same path. */
  lemma GeneratedNames(project: Project, i: nat, j: nat)
    ensures PagePath(project, i) == project.prefix + "/page_" + Digits3(i) + ".rs"
    ensures PagePath(project, i) == PagePath(project, j) ==> i == j
  {
    hide Digits3;
    PadIsDigits3(i);
    PadIsDigits3(j);
    var head := project.prefix + "/page_";
    var a, b := Digits3(i), Digits3(j);
    if head + a + ".rs" == head + b + ".rs" {
      assert |a| == |b|;
      assert a == (head + a + ".rs")[|head|..|head| + |a|] == (head + b + ".rs")[|head|..|head| + |b|] == b;
      Digits3Differ(i, j);
    }
  }

  lemma {:induction false} LastSegment(dir: string, name: string)
    requires '/' !in name
    ensures AfterLastSlash(dir + "/" + name) == name && AfterLastSlash(name) == name
  {
    var t := dir + "/" + name;
    assert t[|dir|] == '/';
    if name != [] {
      var init, c := name[..|name| - 1], name[|name| - 1];
      assert forall x :: x in init ==> x in name;
      assert c in name && name == init + [c];
      LastSegment(dir, init);
      assert t[..|t| - 1] == dir + "/" + init;
      assert '/' in t;
    } else {
      assert t == dir + "/" && t[|t| - 1] == '/';
    }
  }

  lemma {:induction false} DecimalHasNoSlash(n: nat)
    ensures '/' !in Decimal(n)
  {
    DecimalDigits(n);
  }

  /** What is shown of a generated page. */
  function GeneratedShown(project: Project, i: nat): Page {
    var name := "page_" + Digits3(i) + ".rs";
    Page(project.prefix + "/" + name, name, "sym_" + project.id + "_" + Decimal(i), 1 + i % 5)
  }

  lemma GeneratedIs(project: Project, i: nat)
    ensures GeneratedPage(project, i) == GeneratedShown(project, i)
  {
    hide Digits3, Decimal, AfterLastSlash;
    var name := "page_" + Digits3(i) + ".rs";
    GeneratedNames(project, i, i);
    assert project.prefix + "/page_" + Digits3(i) + ".rs" == project.prefix + "/" + name;
    DigitsHaveNoSlash(i);
    assert forall c :: c in name ==> c in "page_" || c in Digits3(i) || c in ".rs";
    LastSegment(project.prefix, name);
    assert |name| > 0;
  }

  lemma DigitsHaveNoSlash(i: nat)
    ensures '/' !in Digits3(i)
  {
    DecimalHasNoSlash(i);
  }

  /** The title of a node's file is its last segment, whichever slashes it is written with and may end with. */
  lemma TitleOfNode(dir: string, name: string, slashes: string)
    requires name != [] && (forall c :: c in name ==> c != '/' && c != '\\') && forall c :: c in slashes ==> c in "/\\"
    ensures NodeTitle(name + slashes) == name
    ensures NodeTitle(dir + "/" + name + slashes) == name && NodeTitle(dir + "\\" + name + slashes) == name
  {
    hide AfterLastSlash, WithoutTrailingSlashes;
    TitleOf("", name, slashes);
    TitleOf(dir + "/", name, slashes);
    TitleOf(dir + "\\", name, slashes);
    assert "" + name + slashes == name + slashes;
  }

  lemma TitleOf(before: string, name: string, slashes: string)
    requires name != [] && (forall c :: c in name ==> c != '/' && c != '\\') && forall c :: c in slashes ==> c in "/\\"
    requires before == [] || before[|before| - 1] in "/\\"
    ensures NodeTitle(before + name + slashes) == name
  {
    hide AfterLastSlash, WithoutTrailingSlashes;
    var head, tail := PathMask.Slashes(before), PathMask.Slashes(slashes);
    assert forall i :: 0 <= i < |name| ==> name[i] in name;
    assert forall i :: 0 <= i < |slashes| ==> slashes[i] in slashes;
    assert PathMask.Slashes(before + name + slashes) == head + name + tail;
    TrailingGo(head + name, tail);
    if before == [] {
      assert head + name == name;
      LastSegment("", name);
    } else {
      assert head == head[..|head| - 1] + "/";
      LastSegment(head[..|head| - 1], name);
    }
  }

  lemma {:induction false} TrailingGo(path: string, slashes: string)
    requires path != [] && path[|path| - 1] != '/' && forall i :: 0 <= i < |slashes| ==> slashes[i] == '/'
    ensures WithoutTrailingSlashes(path + slashes) == path
  {
    if slashes == [] {
      assert path + slashes == path;
    } else {
      var t := path + slashes;
      assert t[..|t| - 1] == path + slashes[..|slashes| - 1];
      TrailingGo(path, slashes[..|slashes| - 1]);
    }
  }

  // ----- the page for each path ---------------------------------------------------------

  /** Page i is the first of its path. */
  predicate IsFirst(pages: seq<Page>, i: nat) {
    i < |pages| && forall j :: 0 <= j < i ==> pages[j].path != pages[i].path
  }

  predicate IsFirstAs(pages: seq<Page>, i: nat, page: Page) { IsFirst(pages, i) && pages[i] == page }

  lemma {:induction false} FirstIsKept(pages: seq<Page>, page: Page)
    ensures page in FirstPerPath(pages) <==> exists i: nat :: IsFirstAs(pages, i, page)
  {
    hide IsFirst, IsFirstAs;
    if pages == [] {
      NoneIsFirst(page);
    } else {
      FirstIsKept(pages[..|pages| - 1], page);
      LastIsFirst(pages);
      FirstOfLonger(pages, page);
      KeptOfLonger(pages, page);
    }
  }

  lemma NoneIsFirst(page: Page)
    ensures forall i: nat :: !IsFirstAs([], i, page)
  {
  }

  lemma KeptOfLonger(pages: seq<Page>, page: Page)
    requires pages != []
    ensures var n := |pages| - 1;
      page in FirstPerPath(pages) <==>
      page in FirstPerPath(pages[..n]) || (page == pages[n] && !HasPath(FirstPerPath(pages[..n]), pages[n].path))
  {
    hide HasPath;
  }

  lemma FirstOfLonger(pages: seq<Page>, page: Page)
    requires pages != []
    ensures var n := |pages| - 1;
      (exists i: nat :: IsFirstAs(pages, i, page)) <==>
      (exists i: nat :: IsFirstAs(pages[..n], i, page)) || (page == pages[n] && IsFirst(pages, n))
  {
    hide IsFirst, IsFirstAs;
    var n := |pages| - 1;
    LastAs(pages, page);
    if i: nat :| IsFirstAs(pages[..n], i, page) {
      FirstOfInit(pages, i, page);
    }
    if i: nat :| IsFirstAs(pages, i, page) {
      FirstOfInit(pages, i, page);
    }
  }

  lemma LastAs(pages: seq<Page>, page: Page)
    requires pages != []
    ensures var n := |pages| - 1; IsFirstAs(pages, n, page) <==> page == pages[n] && IsFirst(pages, n)
  {
  }

  lemma FirstOfInit(pages: seq<Page>, i: nat, page: Page)
    requires pages != []
    ensures var n := |pages| - 1; IsFirstAs(pages[..n], i, page) <==> i < n && IsFirstAs(pages, i, page)
    ensures IsFirstAs(pages, i, page) ==> i < |pages|
  {
  }

  lemma LastIsFirst(pages: seq<Page>)
    requires pages != []
    ensures var n := |pages| - 1;
      IsFirst(pages, n) <==> !HasPath(FirstPerPath(pages[..n]), pages[n].path)
  {
    var n := |pages| - 1;
    var init, path := pages[..n], pages[n].path;
    FirstPerPathIsExact(init);
    if page :| page in FirstPerPath(init) && page.path == path {
      var j :| 0 <= j < n && init[j] == page;
      assert pages[j].path == pages[n].path;
    }
    if !IsFirst(pages, n) {
      var j :| 0 <= j < n && pages[j].path == path;
      assert init[j] in init && path in Paths(init);
      var page :| page in FirstPerPath(init) && page.path == path;
    }
  }

  /** What is shown of a node: its file, the file's title, its name, and its references or 1 without any. */
  function NodeShown(node: Node): Page {
    Page(node.file, NodeTitle(node.file), node.name, if node.refCount == 0 then 1 else node.refCount)
  }

  /** A page that is the first of its path stays so behind a page with another path. */
  lemma FirstBehind(page: Page, pages: seq<Page>, i: nat)
    requires IsFirst(pages, i) && page.path != pages[i].path
    ensures IsFirst([page] + pages, i + 1) && ([page] + pages)[i + 1] == pages[i]
  {
  }

  lemma {:induction false} NodeIsFirst(project: Project, n: nat, k: nat) returns (i: nat)
    requires k < n <= |project.nodes| && project.nodes[k].file != ""
    requires forall j :: k < j < n ==> project.nodes[j].file != project.nodes[k].file
    ensures IsFirst(AllPages(project, n), i) && AllPages(project, n)[i] == NodeShown(project.nodes[k])
  {
    hide NodeTitle, GeneratedPage;
    if k == n - 1 {
      i := 0;
    } else {
      i := NodeIsFirst(project, n - 1, k);
      if project.nodes[n - 1].file != "" {
        FirstBehind(NodePage(project.nodes[n - 1]), AllPages(project, n - 1), i);
        i := i + 1;
      } else {
        assert AllPages(project, n) == AllPages(project, n - 1);
      }
    }
  }

  lemma {:induction false} GeneratedIsFirst(project: Project, n: nat, k: nat) returns (i: nat)
    requires k < project.count && n <= |project.nodes|
    requires forall j :: 0 <= j < n ==> project.nodes[j].file != PagePath(project, k)
    ensures IsFirst(AllPages(project, n), i) && AllPages(project, n)[i] == GeneratedShown(project, k)
  {
    hide PagePath, Digits3, Decimal;
    if n == 0 {
      i := k;
      GeneratedIs(project, k);
      forall j: nat | j < k
        ensures AllPages(project, 0)[j].path != AllPages(project, 0)[k].path
      {
        GeneratedNames(project, j, k);
      }
    } else {
      i := GeneratedIsFirst(project, n - 1, k);
      if project.nodes[n - 1].file != "" {
        GeneratedNames(project, k, k);
        ShownPath(project, k);
        FirstBehind(NodePage(project.nodes[n - 1]), AllPages(project, n - 1), i);
        i := i + 1;
      } else {
        assert AllPages(project, n) == AllPages(project, n - 1);
      }
    }
  }

  lemma ShownPath(project: Project, i: nat)
    ensures GeneratedShown(project, i).path == PagePath(project, i)
  {
    hide Digits3;
    GeneratedNames(project, i, i);
    assert project.prefix + "/page_" + Digits3(i) + ".rs" == project.prefix + "/" + ("page_" + Digits3(i) + ".rs");
  }

  /** The last node of a file stands for that path, before any generated page of it. */
  lemma NodeIsShown(project: Project, k: nat)
    requires k < |project.nodes| && project.nodes[k].file != ""
    requires forall j :: k < j < |project.nodes| ==> project.nodes[j].file != project.nodes[k].file
    ensures NodeShown(project.nodes[k]) in FirstPerPath(AllPages(project, |project.nodes|))
  {
    var i := NodeIsFirst(project, |project.nodes|, k);
    assert IsFirstAs(AllPages(project, |project.nodes|), i, NodeShown(project.nodes[k]));
    FirstIsKept(AllPages(project, |project.nodes|), NodeShown(project.nodes[k]));
  }

  /** A generated page is shown unless a node has its path. */
  lemma GeneratedIsShown(project: Project, k: nat)
    requires k < project.count
    requires forall j :: 0 <= j < |project.nodes| ==> project.nodes[j].file != PagePath(project, k)
    ensures GeneratedShown(project, k) in FirstPerPath(AllPages(project, |project.nodes|))
  {
    var i := GeneratedIsFirst(project, |project.nodes|, k);
    assert IsFirstAs(AllPages(project, |project.nodes|), i, GeneratedShown(project, k));
    FirstIsKept(AllPages(project, |project.nodes|), GeneratedShown(project, k));
  }

  // ----- listings -----------------------------------------------------------------------

  /** The page fits a query: it has the text in its path, title or snippet, in small letters. */
  predicate Fits(text: string, page: Page) {
    text == "" || exists i :: 0 <= i <= |Haystack(page)| && PartAt(Haystack(page), text, i)
  }

  function Haystack(page: Page): string { Lower(page.path + " " + page.title + " " + page.snippet) }

  /** A listing holds exactly the first pages of their paths that fit, in the order of the query. */
  lemma ListingIs(project: Project, query: Query, page: Page)
    ensures page in Listing(project, query) <==>
      page in FirstPerPath(AllPages(project, |project.nodes|)) && Fits(query.text, page)
    ensures TotalPreorder(query.order) ==> Sorted(query.order, Listing(project, query))
  {
    hide Contains;
    var first := FirstPerPath(AllPages(project, |project.nodes|));
    FilterIn(Matches(query.text), first);
    SortIn(query.order, Filter(Matches(query.text), first));
    ContainsIs(Haystack(page), query.text);
    if TotalPreorder(query.order) {
      SortSorted(query.order, Filter(Matches(query.text), first));
    }
  }
}
