/**
 The vault's page list: a set-based total on the project card, a list-based query behind the
 page view, and the view that appends one query window after another.
 */
module VaultPages {
  import opened Sequences
  import opened StableSort
  import PathMask

  datatype Page = Page(path: string, title: string, snippet: string, symbolCount: nat)

  /** A node of the semantic map; an empty file stands for an absent one. */
  datatype Node = Node(name: string, file: string, refCount: nat)

  /** What the mock knows of one project: its page count, path prefix and map nodes. */
  datatype Project = Project(id: string, count: nat, prefix: string, nodes: seq<Node>)

  /** `String(i).padStart(3, "0")` */
  function PadNumber(i: nat): string {
    var digits := Decimal(i);
    if |digits| >= 3 then digits else if |digits| == 2 then "0" + digits else "00" + digits
  }

  function PagePath(project: Project, i: nat): string {
    project.prefix + "/page_" + PadNumber(i) + ".rs"
  }

  function AfterLastSlash(path: string): string {
    if '/' !in path then path
    else if path[|path| - 1] == '/' then ""
    else AfterLastSlash(path[..|path| - 1]) + [path[|path| - 1]]
  }

  function WithoutTrailingSlashes(path: string): string {
    if path != "" && path[|path| - 1] == '/' then WithoutTrailingSlashes(path[..|path| - 1]) else path
  }

  /** Last non-empty segment of a node's file, or the file itself. */
  function NodeTitle(file: string): string {
    var title := AfterLastSlash(WithoutTrailingSlashes(PathMask.Slashes(file)));
    if title == "" then file else title
  }

  function GeneratedPage(project: Project, i: nat): Page {
    var path := PagePath(project, i);
    var title := AfterLastSlash(path);
    Page(path, if title == "" then path else title, "sym_" + project.id + "_" + Decimal(i), 1 + i % 5)
  }

  function NodePage(node: Node): Page {
    Page(node.file, NodeTitle(node.file), node.name, if node.refCount == 0 then 1 else node.refCount)
  }

  /** All pages before de-duplication: each node goes in front of what is there. */
  function AllPages(project: Project, n: nat): seq<Page>
    requires n <= |project.nodes|
  {
    if n == 0 then seq(project.count, i requires 0 <= i => GeneratedPage(project, i))
    else
      var node := project.nodes[n - 1];
      (if node.file == "" then [] else [NodePage(node)]) + AllPages(project, n - 1)
  }

  predicate HasPath(pages: seq<Page>, path: string) {
    exists page :: page in pages && page.path == path
  }

  /** The first page of every path. */
  function FirstPerPath(pages: seq<Page>): seq<Page> {
    if pages == [] then []
    else
      var before, page := FirstPerPath(pages[..|pages| - 1]), pages[|pages| - 1];
      if HasPath(before, page.path) then before else before + [page]
  }

  /** Query text and comparator of a listing; the empty query selects every page. */
  datatype Query = Query(text: string, order: (Page, Page) -> bool)

  function Matches(text: string): Page -> bool {
    (page: Page) => text == "" || Contains(Lower(page.path + " " + page.title + " " + page.snippet), text)
  }

  function Listing(project: Project, query: Query): seq<Page> {
    Sort(query.order, Filter(Matches(query.text), FirstPerPath(AllPages(project, |project.nodes|))))
  }

  function Paths(pages: seq<Page>): set<string> { set page | page in pages :: page.path }

  function PathOf(page: Page): string { page.path }

  // ----- the two loops ------------------------------------------------------------------

  predicate NodeHasPath(project: Project, path: string, n: nat)
    requires n <= |project.nodes|
  {
    path != "" && exists k :: 0 <= k < n && project.nodes[k].file == path
  }

  predicate TotalPath(project: Project, n: nat, path: string)
    requires n <= |project.nodes|
  {
    GeneratesPath(project, path, project.count) || NodeHasPath(project, path, n)
  }

  predicate GeneratesPath(project: Project, path: string, n: nat) {
    exists i: nat :: i < n && PagePath(project, i) == path
  }

  lemma GeneratedPaths(project: Project, path: string)
    ensures HasPath(AllPages(project, 0), path) <==> GeneratesPath(project, path, project.count)
  {
    var pages := AllPages(project, 0);
    forall page | page in pages && page.path == path
      ensures GeneratesPath(project, path, project.count)
    {
      var i :| 0 <= i < |pages| && pages[i] == page;
      assert PagePath(project, i) == path;
    }
    forall i: nat | i < project.count && PagePath(project, i) == path
      ensures HasPath(pages, path)
    {
      assert pages[i] in pages && pages[i].path == path;
    }
  }

  lemma HasPathCons(page: Page, pages: seq<Page>, path: string)
    ensures HasPath([page] + pages, path) <==> page.path == path || HasPath(pages, path)
  {
    assert page in [page] + pages;
    assert forall x :: x in pages ==> x in [page] + pages;
  }

  lemma TotalPathStep(project: Project, n: nat, path: string)
    requires 0 < n <= |project.nodes|
    ensures TotalPath(project, n, path)
       <==> TotalPath(project, n - 1, path) || (path != "" && project.nodes[n - 1].file == path)
  {
  }

  lemma AllPagesStep(project: Project, n: nat, path: string)
    requires 0 < n <= |project.nodes|
    ensures HasPath(AllPages(project, n), path)
       <==> HasPath(AllPages(project, n - 1), path) || (path != "" && project.nodes[n - 1].file == path)
  {
    var node, rest := project.nodes[n - 1], AllPages(project, n - 1);
    if node.file == "" {
      assert AllPages(project, n) == rest;
    } else {
      HasPathCons(NodePage(node), rest, path);
    }
  }

  lemma NoNodesNoPath(project: Project, path: string)
    ensures !NodeHasPath(project, path, 0)
  {
  }

  lemma {:induction false} AllPagesPaths(project: Project, n: nat, path: string)
    requires n <= |project.nodes|
    ensures HasPath(AllPages(project, n), path) <==> TotalPath(project, n, path)
  {
    hide GeneratesPath, PagePath, NodeHasPath, HasPath;
    if n == 0 {
      GeneratedPaths(project, path);
      NoNodesNoPath(project, path);
    } else {
      AllPagesPaths(project, n - 1, path);
      AllPagesStep(project, n, path);
      TotalPathStep(project, n, path);
    }
  }

  lemma PathsOfAllPages(project: Project, path: string)
    ensures path in Paths(AllPages(project, |project.nodes|)) <==> TotalPath(project, |project.nodes|, path)
  {
    AllPagesPaths(project, |project.nodes|, path);
    assert path in Paths(AllPages(project, |project.nodes|)) <==> HasPath(AllPages(project, |project.nodes|), path);
  }

  lemma GeneratesNext(project: Project, path: string, n: nat)
    ensures GeneratesPath(project, path, n + 1) <==> GeneratesPath(project, path, n) || PagePath(project, n) == path
  {
  }

  method GeneratedPathSet(project: Project) returns (paths: set<string>)
    ensures forall path :: path in paths <==> GeneratesPath(project, path, project.count)
  {
    paths := {};
    for i := 0 to project.count
      invariant forall path :: path in paths <==> GeneratesPath(project, path, i)
    {
      forall path
        ensures GeneratesPath(project, path, i + 1) <==> GeneratesPath(project, path, i) || PagePath(project, i) == path
      {
        GeneratesNext(project, path, i);
      }
      paths := paths + {PagePath(project, i)};
    }
  }

  method PageTotal(project: Project) returns (total: nat)
    ensures total == |Paths(AllPages(project, |project.nodes|))|
  {
    var paths := GeneratedPathSet(project);
    for n := 0 to |project.nodes|
      invariant forall path :: path in paths <==> TotalPath(project, n, path)
    {
      forall path
        ensures TotalPath(project, n + 1, path)
           <==> TotalPath(project, n, path) || (path != "" && project.nodes[n].file == path)
      {
        TotalPathStep(project, n + 1, path);
      }
      if project.nodes[n].file != "" {
        paths := paths + {project.nodes[n].file};
      }
    }
    forall path
      ensures path in paths <==> path in Paths(AllPages(project, |project.nodes|))
    {
      PathsOfAllPages(project, path);
    }
    assert paths == Paths(AllPages(project, |project.nodes|));
    total := |paths|;
  }

  method GatherPages(project: Project) returns (all: seq<Page>)
    ensures all == AllPages(project, |project.nodes|)
  {
    hide GeneratedPage, NodePage;
    all := seq(project.count, i requires 0 <= i => GeneratedPage(project, i));
    for n := 0 to |project.nodes|
      invariant all == AllPages(project, n)
    {
      var node := project.nodes[n];
      if node.file != "" {
        all := [NodePage(node)] + all;
      }
    }
  }

  method FilterSeen(all: seq<Page>) returns (unique: seq<Page>)
    ensures unique == FirstPerPath(all)
  {
    var seen: set<string> := {};
    unique := [];
    for i := 0 to |all|
      invariant unique == FirstPerPath(all[..i])
      invariant forall path :: path in seen <==> HasPath(unique, path)
    {
      assert all[..i + 1][..i] == all[..i];
      if all[i].path !in seen {
        seen := seen + {all[i].path};
        HasPathAppend(unique, all[i]);
        unique := unique + [all[i]];
      }
    }
    assert all[..|all|] == all;
  }

  method ListPages(project: Project, query: Query, offset: nat, limit: nat) returns (pages: seq<Page>, total: nat)
    ensures total == |Listing(project, query)|
    ensures pages == Slice(Listing(project, query), offset, limit)
  {
    var found := GatherPages(project);
    found := FilterSeen(found);
    FilterAll(Matches(""), found);
    if query.text != "" {
      found := Filter(Matches(query.text), found);
    }
    found := Sort(query.order, found);
    pages, total := Slice(found, offset, limit), |found|;
  }

  lemma HasPathAppend(pages: seq<Page>, page: Page)
    ensures forall path :: HasPath(pages + [page], path) <==> HasPath(pages, path) || page.path == path
  {
    assert page in pages + [page];
    assert forall x :: x in pages ==> x in pages + [page];
  }

  // ----- the totals agree ---------------------------------------------------------------

  lemma {:induction false} FirstPerPathIsExact(pages: seq<Page>)
    ensures Distinct(Map(PathOf, FirstPerPath(pages)))
    ensures Paths(FirstPerPath(pages)) == Paths(pages)
    ensures forall page :: page in FirstPerPath(pages) ==> page in pages
  {
    if pages != [] {
      var init, page := pages[..|pages| - 1], pages[|pages| - 1];
      var before := FirstPerPath(init);
      FirstPerPathIsExact(init);
      assert pages == init + [page];
      assert Paths(pages) == Paths(init) + {page.path};
      if HasPath(before, page.path) {
        assert page.path in Paths(before);
      } else {
        assert Paths(before + [page]) == Paths(before) + {page.path};
        DistinctSnoc(PathOf, before, page);
      }
    }
  }

  lemma {:induction false} DistinctCount(pages: seq<Page>)
    requires Distinct(Map(PathOf, pages))
    ensures |Paths(pages)| == |pages|
  {
    if pages == [] {
      assert Paths(pages) == {};
    } else {
      var init, page := pages[..|pages| - 1], pages[|pages| - 1];
      assert pages == init + [page];
      DistinctLast(PathOf, init, page);
      DistinctCount(init);
      assert Paths(pages) == Paths(init) + {page.path};
    }
  }

  /** The card's set-based total is the total of the unfiltered list query, for every project and any sort. */
  lemma TotalsAgree(project: Project, order: (Page, Page) -> bool)
    ensures |Listing(project, Query("", order))| == |Paths(AllPages(project, |project.nodes|))|
  {
    var all := AllPages(project, |project.nodes|);
    FirstPerPathIsExact(all);
    FilterAll(Matches(""), FirstPerPath(all));
    DistinctCount(FirstPerPath(all));
  }

  /** No listing shows a path twice. */
  lemma ListingIsDistinct(project: Project, query: Query)
    ensures Distinct(Map(PathOf, Listing(project, query)))
  {
    var first := FirstPerPath(AllPages(project, |project.nodes|));
    FirstPerPathIsExact(AllPages(project, |project.nodes|));
    FilterKeepsDistinct(Matches(query.text), PathOf, first);
    SortContents(query.order, Filter(Matches(query.text), first));
    DistinctContents(PathOf, Filter(Matches(query.text), first), Listing(project, query));
  }

  // ----- the page view ------------------------------------------------------------------

  const VAULT_PAGE_WINDOW: nat := 200

  /** Pages and total held by the view; None before the first answer and after a failed first fetch. */
  datatype View = View(pages: Option<seq<Page>>, total: Option<nat>)

  /** The state after one fetch of a window at `offset`. */
  function Fetched(view: View, project: Project, query: Query, offset: nat, append: bool, ok: bool): View {
    if !ok then (if append then view else View(None, None))
    else
      var window := Slice(Listing(project, query), offset, VAULT_PAGE_WINDOW);
      View(Some(if append && view.pages.Some? then view.pages.value + window else window),
           Some(|Listing(project, query)|))
  }

  function LoadedMore(view: View, project: Project, query: Query, ok: bool): View {
    if view.pages.None? || view.total.None? || |view.pages.value| >= view.total.value then view
    else Fetched(view, project, query, |view.pages.value|, true, ok)
  }

  class PageView {
    var pages: Option<seq<Page>>
    var total: Option<nat>
    var query: Query

    constructor (query: Query)
      ensures Held() == View(None, None) && this.query == query
    {
      pages, total := None, None;
      this.query := query;
    }

    function Held(): View
      reads this
    {
      View(pages, total)
    }

    method FetchProjectPages(project: Project, offset: nat, append: bool, ok: bool)
      modifies `pages, `total
      ensures Held() == Fetched(old(Held()), project, query, offset, append, ok)
      ensures ok ==> total == Some(|Listing(project, query)|)
      ensures ok && (!append || old(pages).None?) ==> pages == Some(Slice(Listing(project, query), offset, 200))
      ensures ok && append && old(pages).Some? ==>
                pages == Some(old(pages).value + Slice(Listing(project, query), offset, 200))
      ensures !ok && append ==> Held() == old(Held())
      ensures !ok && !append ==> pages == None && total == None
    {
      if ok {
        var window, count := ListPages(project, query, offset, VAULT_PAGE_WINDOW);
        pages := Some(if append && pages.Some? then pages.value + window else window);
        total := Some(count);
      } else if !append {
        pages, total := None, None;
      }
    }

    method HandlePageSearch(project: Project, query: Query, ok: bool)
      modifies this
      ensures this.query == query
      ensures Held() == Fetched(old(Held()), project, query, 0, false, ok)
      ensures ok ==> pages == Some(Take(Listing(project, query), 200)) && total == Some(|Listing(project, query)|)
      ensures !ok ==> pages == None && total == None
    {
      this.query := query;
      FetchProjectPages(project, 0, false, ok);
    }

    method HandleLoadMorePages(project: Project, ok: bool)
      modifies `pages, `total
      ensures Held() == LoadedMore(old(Held()), project, query, ok)
    {
      if pages.None? || total.None? || |pages.value| >= total.value {
        return;
      }
      FetchProjectPages(project, |pages.value|, true, ok);
    }
  }

  /** A search followed by load-more calls, each of which may fail. */
  function Paged(project: Project, query: Query, outcomes: seq<bool>): View {
    if outcomes == [] then Fetched(View(None, None), project, query, 0, false, true)
    else LoadedMore(Paged(project, query, outcomes[..|outcomes| - 1]), project, query, outcomes[|outcomes| - 1])
  }

  function Successes(outcomes: seq<bool>): nat {
    if outcomes == [] then 0 else Successes(outcomes[..|outcomes| - 1]) + (if outcomes[|outcomes| - 1] then 1 else 0)
  }

  /** One load-more extends a prefix of the listing by a window, unless it fails or nothing is missing. */
  lemma LoadMoreExtends(project: Project, query: Query, n: nat, ok: bool)
    ensures var all := Listing(project, query);
      LoadedMore(Holding(all, n), project, query, ok) == Holding(all, if ok then n + VAULT_PAGE_WINDOW else n)
  {
    hide Listing;
    var all := Listing(project, query);
    var held := |Take(all, n)|;
    if held < |all| {
      SliceExtendsTake(all, held, VAULT_PAGE_WINDOW);
    }
  }

  /** How many pages are asked for by k successful load-more calls after a search. */
  function Asked(k: nat): nat { VAULT_PAGE_WINDOW * (k + 1) }

  /** The view that holds the first n pages of a listing and knows its length. */
  function Holding(all: seq<Page>, n: nat): View { View(Some(Take(all, n)), Some(|all|)) }

  /**
   With a fixed query and sort, append-by-length paging holds exactly the first 200 (k + 1) pages
   of the sorted, de-duplicated listing after k successful load-more calls: always a prefix, no
   page twice, and complete exactly when the total is reached.
   */
  lemma {:induction false} PagingIsPrefix(project: Project, query: Query, outcomes: seq<bool>)
    ensures Paged(project, query, outcomes) == Holding(Listing(project, query), Asked(Successes(outcomes)))
  {
    var all := Listing(project, query);
    if outcomes == [] {
      assert Slice(all, 0, VAULT_PAGE_WINDOW) == Take(all, VAULT_PAGE_WINDOW);
    } else {
      var before := outcomes[..|outcomes| - 1];
      PagingIsPrefix(project, query, before);
      LoadMoreExtends(project, query, Asked(Successes(before)), outcomes[|outcomes| - 1]);
    }
  }

  /** Load-more fetches exactly while pages are missing, and a successful fetch brings at least one. */
  lemma LoadMoreStopsAtTotal(project: Project, query: Query, outcomes: seq<bool>, ok: bool)
    ensures var view := Paged(project, query, outcomes);
      var next := LoadedMore(view, project, query, ok);
      && view.pages.Some? && next.pages.Some?
      && (next == view <==> view.pages.value == Listing(project, query) || !ok)
      && (next != view ==> |next.pages.value| > |view.pages.value|)
  {
    PagingIsPrefix(project, query, outcomes);
    LoadMoreExtends(project, query, Asked(Successes(outcomes)), ok);
  }
}
